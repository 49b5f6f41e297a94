/**
 * A reader of FRU data written from the storage definition (sections 8, 10, 11, 12 and 13 of the IPMI
 * Platform Management FRU Information Storage Definition v1.0), and the proof that it undoes the builder.
 * Mandatory fields are read by position: a one-byte ASCII value has the type/length byte C1h, which is
 * also the end marker of the custom fields.
 */
module FruParser {
  import opened Bytes
  import opened FruArea

  /** A field's type code and data. */
  datatype Entry = Entry(code: nat, data: Value)

  datatype ChassisInfo = ChassisInfo(chassisType: byte, fields: seq<Entry>, custom: seq<Entry>)
  datatype BoardInfo = BoardInfo(language: byte, minutes: nat, fields: seq<Entry>, custom: seq<Entry>)
  datatype ProductInfo = ProductInfo(language: byte, fields: seq<Entry>, custom: seq<Entry>)
  datatype Fru = Fru(chassis: Option<ChassisInfo>, board: Option<BoardInfo>, product: Option<ProductInfo>)

  /** A field and the position behind it. */
  function ParseField(s: seq<byte>, pos: nat): (r: Option<(Entry, nat)>) {
    if pos < |s| && pos + 1 + s[pos] % 0x40 <= |s|
    then Some((Entry(s[pos] / 0x40, s[pos + 1..pos + 1 + s[pos] % 0x40]), pos + 1 + s[pos] % 0x40))
    else None
  }

  function ParseFields(s: seq<byte>, pos: nat, n: nat): (r: Option<(seq<Entry>, nat)>)
    decreases n
  {
    if n == 0 then Some(([], pos))
    else
      match ParseField(s, pos)
      case None => None
      case Some((v, next)) =>
        match ParseFields(s, next, n - 1)
        case None => None
        case Some((vs, end)) => Some(([v] + vs, end))
  }

  /** Custom fields up to the end marker. */
  function ParseCustom(s: seq<byte>, pos: nat): (r: Option<seq<Entry>>)
    decreases if pos < |s| then |s| - pos else 0
  {
    if pos >= |s| then None
    else if s[pos] == END_OF_CUSTOM_FIELDS then Some([])
    else
      match ParseField(s, pos)
      case None => None
      case Some((v, next)) =>
        match ParseCustom(s, next)
        case None => None
        case Some(vs) => Some([v] + vs)
  }

  /** The area a header byte points at, if its version, length and checksum are in order. */
  function ParseArea(blob: seq<byte>, units: byte): (r: Option<seq<byte>>) {
    var start := InBytes(units);
    if start + 2 > |blob| || blob[start] % 0x10 != SPEC_VERSION then None
    else
      var size := InBytes(blob[start + 1]);
      if size < 8 || start + size > |blob| || !ZeroSum(blob[start..start + size]) then None
      else Some(blob[start..start + size])
  }

  /** Mandatory fields from `pos`, then custom fields. */
  function ParseBody(area: seq<byte>, pos: nat, mandatory: nat): (r: Option<(seq<Entry>, seq<Entry>)>) {
    match ParseFields(area, pos, mandatory)
    case None => None
    case Some((fields, next)) =>
      match ParseCustom(area, next)
      case None => None
      case Some(custom) => Some((fields, custom))
  }

  function ParseChassis(area: seq<byte>): (r: Option<ChassisInfo>)
  {
    if |area| < 8 then None else
    match ParseBody(area, 3, 2)
    case None => None
    case Some((fields, custom)) => Some(ChassisInfo(area[2], fields, custom))
  }

  function ParseBoard(area: seq<byte>): (r: Option<BoardInfo>)
  {
    if |area| < 8 then None else
    match ParseBody(area, 6, 5)
    case None => None
    case Some((fields, custom)) =>
      Some(BoardInfo(area[2], area[3] as int + 0x100 * area[4] as int + 0x1_0000 * area[5] as int, fields, custom))
  }

  function ParseProduct(area: seq<byte>): (r: Option<ProductInfo>)
  {
    if |area| < 8 then None else
    match ParseBody(area, 3, 7)
    case None => None
    case Some((fields, custom)) => Some(ProductInfo(area[2], fields, custom))
  }

  /** An area is absent, well-formed, or makes the whole FRU unreadable. */
  datatype AreaResult<T> = Absent | Present(info: T) | Unreadable

  function ReadArea<T>(blob: seq<byte>, units: byte, parse: seq<byte> -> Option<T>): (r: AreaResult<T>) {
    if units == NOT_PRESENT then Absent
    else
      match ParseArea(blob, units)
      case None => Unreadable
      case Some(area) =>
        match parse(area)
        case None => Unreadable
        case Some(info) => Present(info)
  }

  function ToOption<T>(r: AreaResult<T>): (result: Option<T>)
    requires !r.Unreadable?
  {
    if r.Present? then Some(r.info) else None
  }

  function Combine(chassis: AreaResult<ChassisInfo>, board: AreaResult<BoardInfo>, product: AreaResult<ProductInfo>)
    : (r: Option<Fru>)
  {
    if chassis.Unreadable? || board.Unreadable? || product.Unreadable? then None
    else Some(Fru(ToOption(chassis), ToOption(board), ToOption(product)))
  }

  predicate HeaderOk(blob: seq<byte>) {
    |blob| >= 8 && blob[0] % 0x10 == SPEC_VERSION && ZeroSum(blob[..8])
  }

  function ParseFru(blob: seq<byte>): (r: Option<Fru>) {
    if !HeaderOk(blob) then None
    else Combine(ReadArea(blob, blob[2], ParseChassis), ReadArea(blob, blob[3], ParseBoard),
                 ReadArea(blob, blob[4], ParseProduct))
  }

  // -------- what should come back --------

  const EMPTY := Entry(0, [])

  /** ASCII data, type code 3, for every property that is there. */
  function FieldEntry(key: string, m: PropertyMap): (r: Entry) {
    if key in m then Entry(3, FieldValue(key, m)) else EMPTY
  }

  function ExpectedChassis(lib: Library, m: PropertyMap): (r: Option<ChassisInfo>) {
    if m == map[] then None
    else Some(ChassisInfo(ChassisType(lib, m), [FieldEntry(MODEL_NUMBER, m), FieldEntry(SERIAL_NUMBER, m)], []))
  }

  function ExpectedBoard(lib: Library, m: PropertyMap): (r: Option<BoardInfo>) {
    if m == map[] then None
    else Some(BoardInfo(ENGLISH, MfgMinutes(lib, m),
                        [FieldEntry(MANUFACTURER, m), FieldEntry(PRETTY_NAME, m), FieldEntry(SERIAL_NUMBER, m),
                         FieldEntry(PART_NUMBER, m), EMPTY], [EMPTY]))
  }

  function ExpectedProduct(m: PropertyMap): (r: Option<ProductInfo>) {
    if m == map[] then None
    else Some(ProductInfo(ENGLISH, [FieldEntry(MANUFACTURER, m), FieldEntry(PRETTY_NAME, m),
                                    FieldEntry(MODEL_NUMBER, m), FieldEntry(VERSION, m),
                                    FieldEntry(SERIAL_NUMBER, m), EMPTY, EMPTY], [EMPTY]))
  }

  function Expected(lib: Library, inventory: Inventory): (r: Fru) {
    Fru(ExpectedChassis(lib, Section(CHASSIS, inventory)), ExpectedBoard(lib, Section(BOARD, inventory)),
        ExpectedProduct(Section(PRODUCT, inventory)))
  }

  // -------- fields come back --------

  predicate IsField(f: seq<byte>) { |f| >= 1 && f[0] % 0x40 == |f| - 1 }

  predicate AllFields(fields: seq<seq<byte>>) { forall i | 0 <= i < |fields| :: IsField(fields[i]) }

  function Data(f: seq<byte>): (r: Entry) { if f == [] then EMPTY else Entry(f[0] / 0x40, f[1..]) }

  function DataOf(fields: seq<seq<byte>>): (r: seq<Entry>)
    ensures |r| == |fields|
  {
    seq(|fields|, i requires 0 <= i < |fields| => Data(fields[i]))
  }

  predicate Encodes(f: seq<byte>, v: Entry) { IsField(f) && Data(f) == v }

  lemma FieldReadsBack(key: string, m: PropertyMap)
    ensures Encodes(Field(key, m), FieldEntry(key, m))
  {}

  lemma ListEncodes(fields: seq<seq<byte>>, values: seq<Entry>)
    requires |fields| == |values| <= 7 && forall i | 0 <= i < |fields| :: Encodes(fields[i], values[i])
    ensures DataOf(fields) == values && |Flat(fields)| <= 1000
    ensures AllFields(fields)
  {
    FlatBounded(fields);
  }

  /** `part` stands at `pos`. */
  predicate At(s: seq<byte>, pos: nat, part: seq<byte>) {
    pos + |part| <= |s| && forall k | 0 <= k < |part| :: s[pos + k] == part[k]
  }

  lemma AtConcat(s: seq<byte>, pos: nat, a: seq<byte>, b: seq<byte>)
    requires At(s, pos, a + b)
    ensures At(s, pos, a) && At(s, pos + |a|, b)
  {
    assert forall k | 0 <= k < |a| :: (a + b)[k] == a[k];
    forall k | 0 <= k < |b| ensures s[pos + |a| + k] == b[k] {
      assert (a + b)[|a| + k] == b[k];
    }
  }

  lemma ParsesAt(s: seq<byte>, pos: nat, f: seq<byte>)
    requires IsField(f) && At(s, pos, f)
    ensures ParseField(s, pos) == Some((Data(f), pos + |f|))
  {
    assert s[pos + 0] == f[0];
    var v := s[pos + 1..pos + |f|];
    forall k | 0 <= k < |v| ensures v[k] == f[1..][k] {
      assert s[pos + (k + 1)] == f[k + 1];
    }
    assert v == f[1..];
  }

  lemma {:induction false} FieldsComeBack(s: seq<byte>, pos: nat, fields: seq<seq<byte>>)
    requires AllFields(fields)
    requires At(s, pos, Flat(fields))
    ensures ParseFields(s, pos, |fields|) == Some((DataOf(fields), pos + |Flat(fields)|))
    decreases |fields|
  {
    if fields != [] {
      var f, rest := fields[0], fields[1..];
      assert forall i | 0 <= i < |rest| :: rest[i] == fields[i + 1];
      AtConcat(s, pos, f, Flat(rest));
      ParsesAt(s, pos, f);
      FieldsComeBack(s, pos + |f|, rest);
      assert DataOf(fields) == [Data(f)] + DataOf(rest);
    }
  }

  function CustomOf(emptyCustom: bool): (r: seq<Entry>) { if emptyCustom then [EMPTY] else [] }

  lemma CustomComesBack(area: seq<byte>, end: nat, emptyCustom: bool)
    requires At(area, end, Tail(emptyCustom))
    ensures ParseCustom(area, end) == Some(CustomOf(emptyCustom))
  {
    var tail := Tail(emptyCustom);
    assert area[end + 0] == tail[0];
    if emptyCustom {
      assert area[end + 1] == tail[1];
      ParsesAt(area, end, [NOT_PRESENT]);
      assert Data([NOT_PRESENT]) == EMPTY;
      assert ParseCustom(area, end + 1) == Some([]);
      var none: seq<Entry> := [];
      assert [Data([NOT_PRESENT])] + none == CustomOf(true);
    }
  }

  lemma BodyComesBack(area: seq<byte>, pos: nat, fields: seq<seq<byte>>, emptyCustom: bool)
    requires AllFields(fields)
    requires At(area, pos, Flat(fields)) && At(area, pos + |Flat(fields)|, Tail(emptyCustom))
    ensures ParseBody(area, pos, |fields|) == Some((DataOf(fields), CustomOf(emptyCustom)))
  {
    FieldsComeBack(area, pos, fields);
    CustomComesBack(area, pos + |Flat(fields)|, emptyCustom);
    BodyFrom(area, pos, |fields|, DataOf(fields), pos + |Flat(fields)|, CustomOf(emptyCustom));
  }

  lemma BodyFrom(area: seq<byte>, pos: nat, mandatory: nat, fields: seq<Entry>, next: nat, custom: seq<Entry>)
    requires ParseFields(area, pos, mandatory) == Some((fields, next)) && ParseCustom(area, next) == Some(custom)
    ensures ParseBody(area, pos, mandatory) == Some((fields, custom))
  {}

  lemma LittleEndianReadsBack(n: nat)
    requires n <= MAX_MFG_DATE
    ensures var b := LittleEndian3(n); b[0] as int + 0x100 * b[1] as int + 0x1_0000 * b[2] as int == n
  {}

  /** Finishing an area changes nothing of its content but the length byte. */
  lemma ContentKept(d: seq<byte>)
    requires 2 <= |d| <= 2000
    ensures |Finished(d)| >= 8 && |Finished(d)| > |d|
    ensures forall k | 2 <= k < |d| :: Finished(d)[k] == d[k]
  {
    FinishedArea(d);
    forall k | 2 <= k < |d| ensures Finished(d)[k] == d[k] {
      assert Finished(d)[k] == Finished(d)[..|d|][k];
    }
  }

  /** The area consists of these parts, leaving aside its length byte and its end. */
  predicate Parts(area: seq<byte>, prefix: seq<byte>, fields: seq<byte>, tail: seq<byte>) {
    && |area| >= |prefix| + |fields| + |tail|
    && (forall k | 2 <= k < |prefix| :: area[k] == prefix[k])
    && At(area, |prefix|, fields) && At(area, |prefix| + |fields|, tail)
  }

  lemma PartsKept(prefix: seq<byte>, fields: seq<byte>, tail: seq<byte>)
    requires 3 <= |prefix| <= 6 && 1 <= |tail| <= 2 && |fields| <= 1000
    ensures Parts(Finished(prefix + fields + tail), prefix, fields, tail)
    ensures |Finished(prefix + fields + tail)| >= 8
  {
    var d := prefix + fields + tail;
    ContentKept(d);
    PartsOf(Finished(d), prefix, fields, tail);
  }

  lemma PartsOf(area: seq<byte>, prefix: seq<byte>, fields: seq<byte>, tail: seq<byte>)
    requires |prefix| >= 2 && |area| >= |prefix| + |fields| + |tail|
    requires forall k | 2 <= k < |prefix| + |fields| + |tail| :: area[k] == (prefix + fields + tail)[k]
    ensures Parts(area, prefix, fields, tail)
  {
    var d := prefix + fields + tail;
    forall k | 0 <= k < |fields| ensures area[|prefix| + k] == fields[k] { assert d[|prefix| + k] == fields[k]; }
    forall k | 0 <= k < |tail| ensures area[|prefix| + |fields| + k] == tail[k] {
      assert d[|prefix| + |fields| + k] == tail[k];
    }
  }

  lemma ChassisFromParts(area: seq<byte>, chassisType: byte, fields: seq<seq<byte>>)
    requires |area| >= 8 && |fields| == 2 && AllFields(fields)
    requires Parts(area, [SPEC_VERSION, 0, chassisType], Flat(fields), Tail(false))
    ensures ParseChassis(area) == Some(ChassisInfo(chassisType, DataOf(fields), []))
  {
    var prefix := [SPEC_VERSION, 0, chassisType];
    BodyComesBack(area, |prefix|, fields, false);
    assert area[2] == prefix[2];
  }

  lemma BoardFromBody(area: seq<byte>, minutes: nat, fields: seq<Entry>, custom: seq<Entry>)
    requires |area| >= 8 && ParseBody(area, 6, 5) == Some((fields, custom))
    requires minutes == area[3] as int + 0x100 * area[4] as int + 0x1_0000 * area[5] as int
    ensures ParseBoard(area) == Some(BoardInfo(area[2], minutes, fields, custom))
  {}

  lemma DatedPrefix(area: seq<byte>, date: seq<byte>)
    requires |area| >= 8 && |date| == 3
    requires forall k | 2 <= k < 6 :: area[k] == ([SPEC_VERSION, 0, ENGLISH] + date)[k]
    ensures area[2] == ENGLISH && area[3] == date[0] && area[4] == date[1] && area[5] == date[2]
  {
    assert ([SPEC_VERSION, 0, ENGLISH] + date)[3..] == date;
  }

  lemma BoardFromParts(area: seq<byte>, date: seq<byte>, minutes: nat, fields: seq<seq<byte>>)
    requires |area| >= 8 && |date| == 3 && |fields| == 5 && AllFields(fields)
    requires minutes == date[0] as int + 0x100 * date[1] as int + 0x1_0000 * date[2] as int
    requires Parts(area, [SPEC_VERSION, 0, ENGLISH] + date, Flat(fields), Tail(true))
    ensures ParseBoard(area) == Some(BoardInfo(ENGLISH, minutes, DataOf(fields), [EMPTY]))
  {
    BodyComesBack(area, |[SPEC_VERSION, 0, ENGLISH] + date|, fields, true);
    DatedPrefix(area, date);
    BoardFromBody(area, minutes, DataOf(fields), CustomOf(true));
  }

  lemma ProductFromParts(area: seq<byte>, fields: seq<seq<byte>>)
    requires |area| >= 8 && |fields| == 7 && AllFields(fields)
    requires Parts(area, [SPEC_VERSION, 0, ENGLISH], Flat(fields), Tail(true))
    ensures ParseProduct(area) == Some(ProductInfo(ENGLISH, DataOf(fields), [EMPTY]))
  {
    var prefix := [SPEC_VERSION, 0, ENGLISH];
    BodyComesBack(area, |prefix|, fields, true);
    assert area[2] == prefix[2];
  }

  lemma ChassisReadsBack(lib: Library, m: PropertyMap)
    requires m != map[]
    ensures ParseChassis(ChassisArea(lib, m)) == ExpectedChassis(lib, m)
  {
    FieldReadsBack(MODEL_NUMBER, m);
    FieldReadsBack(SERIAL_NUMBER, m);
    ListEncodes(ChassisFields(m), [FieldEntry(MODEL_NUMBER, m), FieldEntry(SERIAL_NUMBER, m)]);
    var prefix := [SPEC_VERSION, 0, ChassisType(lib, m)];
    PartsKept(prefix, Flat(ChassisFields(m)), Tail(false));
    ChassisFromParts(ChassisArea(lib, m), ChassisType(lib, m), ChassisFields(m));
  }

  lemma BoardFieldsEncode(m: PropertyMap)
    ensures DataOf(BoardFields(m)) == [FieldEntry(MANUFACTURER, m), FieldEntry(PRETTY_NAME, m),
                                       FieldEntry(SERIAL_NUMBER, m), FieldEntry(PART_NUMBER, m), EMPTY]
    ensures |Flat(BoardFields(m))| <= 1000 && AllFields(BoardFields(m))
  {
    FieldReadsBack(MANUFACTURER, m);
    FieldReadsBack(PRETTY_NAME, m);
    FieldReadsBack(SERIAL_NUMBER, m);
    FieldReadsBack(PART_NUMBER, m);
    ListEncodes(BoardFields(m), [FieldEntry(MANUFACTURER, m), FieldEntry(PRETTY_NAME, m),
                                 FieldEntry(SERIAL_NUMBER, m), FieldEntry(PART_NUMBER, m), EMPTY]);
  }

  lemma DatedAreaReadsBack(minutes: nat, fields: seq<seq<byte>>)
    requires minutes <= MAX_MFG_DATE
    requires |fields| == 5 && |Flat(fields)| <= 1000 && AllFields(fields)
    ensures ParseBoard(Finished([SPEC_VERSION, 0, ENGLISH] + LittleEndian3(minutes) + Flat(fields) + Tail(true)))
         == Some(BoardInfo(ENGLISH, minutes, DataOf(fields), [EMPTY]))
  {
    var date := LittleEndian3(minutes);
    LittleEndianReadsBack(minutes);
    PartsKept([SPEC_VERSION, 0, ENGLISH] + date, Flat(fields), Tail(true));
    BoardFromParts(Finished([SPEC_VERSION, 0, ENGLISH] + date + Flat(fields) + Tail(true)), date, minutes, fields);
  }

  lemma BoardReadsBack(lib: Library, m: PropertyMap)
    requires m != map[]
    ensures ParseBoard(BoardArea(lib, m)) == ExpectedBoard(lib, m)
  {
    BoardFieldsEncode(m);
    DatedAreaReadsBack(MfgMinutes(lib, m), BoardFields(m));
  }

  lemma ProductFieldsEncode(m: PropertyMap)
    ensures DataOf(ProductFields(m))
        == [FieldEntry(MANUFACTURER, m), FieldEntry(PRETTY_NAME, m), FieldEntry(MODEL_NUMBER, m),
                                         FieldEntry(VERSION, m), FieldEntry(SERIAL_NUMBER, m), EMPTY, EMPTY]
    ensures |Flat(ProductFields(m))| <= 1000 && AllFields(ProductFields(m))
  {
    FieldReadsBack(MANUFACTURER, m);
    FieldReadsBack(PRETTY_NAME, m);
    FieldReadsBack(MODEL_NUMBER, m);
    FieldReadsBack(VERSION, m);
    FieldReadsBack(SERIAL_NUMBER, m);
    ListEncodes(ProductFields(m), [FieldEntry(MANUFACTURER, m), FieldEntry(PRETTY_NAME, m), FieldEntry(MODEL_NUMBER, m),
                                   FieldEntry(VERSION, m), FieldEntry(SERIAL_NUMBER, m), EMPTY, EMPTY]);
  }

  lemma ProductReadsBack(m: PropertyMap)
    requires m != map[]
    ensures ParseProduct(ProductArea(m)) == ExpectedProduct(m)
  {
    ProductFieldsEncode(m);
    PartsKept([SPEC_VERSION, 0, ENGLISH], Flat(ProductFields(m)), Tail(true));
    ProductFromParts(ProductArea(m), ProductFields(m));
  }

  lemma LocatedAreaIsRead<T>(blob: seq<byte>, units: byte, area: seq<byte>, maxSize: nat, parse: seq<byte> -> Option<T>,
                             expected: Option<T>)
    requires GoodArea(area, maxSize) && Located(blob, units, area)
    requires if area == [] then expected == None else expected.Some? && parse(area) == expected
    ensures ReadArea(blob, units, parse) == Wrapped(expected)
  {
    if area != [] {
      var start := InBytes(units);
      assert blob[start] == blob[start..start + |area|][0];
      assert blob[start + 1] == blob[start..start + |area|][1];
      assert ParseArea(blob, units) == Some(area);
    }
  }

  function Wrapped<T>(r: Option<T>): (result: AreaResult<T>) {
    match r case None => Absent case Some(info) => Present(info)
  }

  lemma ChassisIsRead(lib: Library, inventory: Inventory)
    ensures ReadArea(Blob(lib, inventory), Blob(lib, inventory)[2], ParseChassis)
         == Wrapped(ExpectedChassis(lib, Section(CHASSIS, inventory)))
  {
    var blob, m := Blob(lib, inventory), Section(CHASSIS, inventory);
    LayoutConsistent(lib, inventory);
    ChassisAreaConsistent(lib, m);
    if m != map[] { ChassisReadsBack(lib, m); }
    LocatedAreaIsRead(blob, blob[2], ChassisArea(lib, m), 136, ParseChassis, ExpectedChassis(lib, m));
  }

  lemma BoardIsRead(lib: Library, inventory: Inventory)
    ensures ReadArea(Blob(lib, inventory), Blob(lib, inventory)[3], ParseBoard)
         == Wrapped(ExpectedBoard(lib, Section(BOARD, inventory)))
  {
    var blob, m := Blob(lib, inventory), Section(BOARD, inventory);
    LayoutConsistent(lib, inventory);
    BoardAreaConsistent(lib, m);
    if m != map[] { BoardReadsBack(lib, m); }
    LocatedAreaIsRead(blob, blob[3], BoardArea(lib, m), 272, ParseBoard, ExpectedBoard(lib, m));
  }

  lemma ProductIsRead(lib: Library, inventory: Inventory)
    ensures ReadArea(Blob(lib, inventory), Blob(lib, inventory)[4], ParseProduct)
         == Wrapped(ExpectedProduct(Section(PRODUCT, inventory)))
  {
    var blob, m := Blob(lib, inventory), Section(PRODUCT, inventory);
    LayoutConsistent(lib, inventory);
    ProductAreaConsistent(m);
    if m != map[] { ProductReadsBack(m); }
    LocatedAreaIsRead(blob, blob[4], ProductArea(m), 328, ParseProduct, ExpectedProduct(m));
  }

  lemma HeaderIsOk(lib: Library, inventory: Inventory)
    ensures HeaderOk(Blob(lib, inventory))
  {
    LayoutConsistent(lib, inventory);
    HeaderFacts(Blob(lib, inventory));
  }

  lemma HeaderFacts(blob: seq<byte>)
    requires |blob| == FRU_SIZE && blob[0] == SPEC_VERSION && ZeroSum(blob[..8])
    ensures HeaderOk(blob)
  {}

  lemma WrappedCombine(fru: Fru)
    ensures Combine(Wrapped(fru.chassis), Wrapped(fru.board), Wrapped(fru.product)) == Some(fru)
  {}

  lemma CombineReads(blob: seq<byte>, fru: Fru)
    requires HeaderOk(blob)
    requires ReadArea(blob, blob[2], ParseChassis) == Wrapped(fru.chassis)
    requires ReadArea(blob, blob[3], ParseBoard) == Wrapped(fru.board)
    requires ReadArea(blob, blob[4], ParseProduct) == Wrapped(fru.product)
    ensures ParseFru(blob) == Some(fru)
  {
    var c, b, p := Wrapped(fru.chassis), Wrapped(fru.board), Wrapped(fru.product);
    assert ParseFru(blob) == Combine(c, b, p);
    WrappedCombine(fru);
  }

  /** Reading back what was built gives, for every inventory, each mandatory field in normalised form. */
  lemma ParserUndoesBuilder(lib: Library, inventory: Inventory)
    ensures ParseFru(Blob(lib, inventory)) == Some(Expected(lib, inventory))
  {
    ChassisIsRead(lib, inventory);
    BoardIsRead(lib, inventory);
    ProductIsRead(lib, inventory);
    HeaderIsOk(lib, inventory);
    CombineReads(Blob(lib, inventory), Expected(lib, inventory));
  }

  /** Why position matters: a field starts with the end marker exactly when its value has one byte. */
  lemma OneByteValueLooksLikeEndMarker(key: string, m: PropertyMap)
    ensures Field(key, m)[0] == END_OF_CUSTOM_FIELDS <==> |FieldEntry(key, m).data| == 1
  {}

  /** A manufacture date in range comes back to the minute; every other date comes back as unspecified. */
  lemma DateToTheMinute(lib: Library, m: PropertyMap)
    ensures "Mfg Date" !in m || m["Mfg Date"] == [] ==> MfgMinutes(lib, m) == 0
    ensures "Mfg Date" in m && m["Mfg Date"] != [] ==>
              var since := lib.timeStringToRaw(m["Mfg Date"]) - 820454400;
              if 0 <= since <= 60 * 0xFFFFFF
              then 0 <= since - 60 * MfgMinutes(lib, m) < 60
              else MfgMinutes(lib, m) == 0
  {}

  // -------- what that is, property by property --------

  /** A value without its 0x or 0X, if it has one, and then its first sixty-three bytes at most. */
  ghost predicate StoredAs(v: Value, w: Value) {
    var from := if [0x30, 0x78] <= v || [0x30, 0x58] <= v then 2 else 0;
    && |w| == (if |v| - from <= 63 then |v| - from else 63)
    && forall i | 0 <= i < |w| :: w[i] == v[from + i]
  }

  /** The entry is this property, as ASCII, or empty if there is none. */
  ghost predicate Shows(m: PropertyMap, key: string, entry: Entry) {
    if key in m then entry.code == 3 && StoredAs(m[key], entry.data) else entry == Entry(0, [])
  }

  ghost predicate ShowsAll(m: PropertyMap, keys: seq<string>, entries: seq<Entry>) {
    |entries| == |keys| && forall i | 0 <= i < |keys| :: Shows(m, keys[i], entries[i])
  }

  lemma FieldShows(key: string, m: PropertyMap)
    ensures Shows(m, key, FieldEntry(key, m))
  {}

  /** Values are stored as they are exactly if they fit and have no prefix that would be taken off. */
  lemma StoredUnchangedExactlyIf(v: Value)
    ensures StoredAs(v, v) <==> |v| <= 63 && !([0x30, 0x78] <= v) && !([0x30, 0x58] <= v)
  {}

  /** The chassis type is the number's low byte, or 0 without a number. */
  ghost predicate IsChassisType(lib: Library, m: PropertyMap, t: byte) {
    if "Type" in m && lib.stoi(m["Type"]).Some? then (lib.stoi(m["Type"]).value - t as int) % 256 == 0 else t == 0
  }

  ghost predicate ShowsChassis(lib: Library, m: PropertyMap, info: ChassisInfo) {
    && IsChassisType(lib, m, info.chassisType) && info.custom == []
    && ShowsAll(m, ["Model Number", "Serial Number"], info.fields)
  }

  ghost predicate ShowsBoard(lib: Library, m: PropertyMap, info: BoardInfo) {
    && info.language == 0 && info.minutes == MfgMinutes(lib, m)
    && |info.fields| == 5 && info.fields[4] == Entry(0, []) && info.custom == [Entry(0, [])]
    && ShowsAll(m, ["Manufacturer", "Name", "Serial Number", "Part Number"], info.fields[..4])
  }

  ghost predicate ShowsProduct(m: PropertyMap, info: ProductInfo) {
    && info.language == 0
    && |info.fields| == 7 && info.fields[5] == info.fields[6] == Entry(0, []) && info.custom == [Entry(0, [])]
    && ShowsAll(m, ["Manufacturer", "Name", "Model Number", "Version", "Serial Number"], info.fields[..5])
  }

  lemma ChassisShown(lib: Library, m: PropertyMap)
    requires m != map[]
    ensures ShowsChassis(lib, m, ExpectedChassis(lib, m).value)
  {
    FieldShows("Model Number", m);
    FieldShows("Serial Number", m);
  }

  lemma BoardShown(lib: Library, m: PropertyMap)
    requires m != map[]
    ensures ShowsBoard(lib, m, ExpectedBoard(lib, m).value)
  {
    FieldShows("Manufacturer", m);
    FieldShows("Name", m);
    FieldShows("Serial Number", m);
    FieldShows("Part Number", m);
  }

  lemma ProductShown(m: PropertyMap)
    requires m != map[]
    ensures ShowsProduct(m, ExpectedProduct(m).value)
  {
    FieldShows("Manufacturer", m);
    FieldShows("Name", m);
    FieldShows("Model Number", m);
    FieldShows("Version", m);
    FieldShows("Serial Number", m);
  }

  predicate Filled(inventory: Inventory, section: string) {
    section in inventory && inventory[section] != map[]
  }

  /** For every inventory: which areas a reader finds, and which property stands in which field. */
  lemma EveryPropertyReadsBack(lib: Library, inventory: Inventory) returns (fru: Fru)
    ensures ParseFru(Blob(lib, inventory)) == Some(fru)
    ensures fru.chassis.Some? <==> Filled(inventory, "Chassis")
    ensures fru.board.Some? <==> Filled(inventory, "Board")
    ensures fru.product.Some? <==> Filled(inventory, "Product")
    ensures fru.chassis.Some? ==> ShowsChassis(lib, inventory["Chassis"], fru.chassis.value)
    ensures fru.board.Some? ==> ShowsBoard(lib, inventory["Board"], fru.board.value)
    ensures fru.product.Some? ==> ShowsProduct(inventory["Product"], fru.product.value)
  {
    ParserUndoesBuilder(lib, inventory);
    fru := Expected(lib, inventory);
    if fru.chassis.Some? { ChassisShown(lib, inventory["Chassis"]); }
    if fru.board.Some? { BoardShown(lib, inventory["Board"]); }
    if fru.product.Some? { ProductShown(inventory["Product"]); }
  }
}
