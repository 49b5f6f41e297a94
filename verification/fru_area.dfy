/** FRU information areas: how the inventory's properties are laid out as bytes. */
module FruArea {
  import opened Bytes

  const SPEC_VERSION: byte := 0x1
  const RECORD_UNIT := 8
  const NOT_PRESENT: byte := 0x0
  const ENGLISH: byte := 0x0
  const END_OF_CUSTOM_FIELDS: byte := 0xC1
  const COMMON_HEADER_SIZE := 8
  const TYPE_ASCII := 0xC0
  const MAX_FIELD_LENGTH := 0x3F
  const SECS_FROM_1970_TO_1996 := 820454400
  const MAX_MFG_DATE := 0xFFFFFF
  const SECS_PER_MIN := 60
  const FRU_SIZE := 0x27E0
  const FRU_PAD: byte := 0xFF

  const PART_NUMBER := "Part Number"
  const SERIAL_NUMBER := "Serial Number"
  const MANUFACTURER := "Manufacturer"
  const BUILD_DATE := "Mfg Date"
  const MODEL_NUMBER := "Model Number"
  const PRETTY_NAME := "Name"
  const VERSION := "Version"
  const TYPE := "Type"
  const BOARD := "Board"
  const CHASSIS := "Chassis"
  const PRODUCT := "Product"

  type Value = seq<byte>
  type PropertyMap = map<string, Value>
  type Inventory = map<string, PropertyMap>

  /** The two library calls whose inside is not modelled: `std::stoi` (None when it throws) and the
      date patterns of `timeStringToRaw`. */
  datatype Library = Library(stoi: Value -> Option<int>, timeStringToRaw: Value -> int)

  // -------- values --------

  function StripHexPrefix(v: Value): (r: Value) {
    if |v| >= 2 && v[0] == 0x30 && (v[1] == 0x78 || v[1] == 0x58) then v[2..] else v
  }

  function Normalised(v: Value): (r: Value)
    ensures |r| <= MAX_FIELD_LENGTH
  {
    var stripped := StripHexPrefix(v);
    if |stripped| > MAX_FIELD_LENGTH then stripped[..MAX_FIELD_LENGTH] else stripped
  }

  /** What a reader of the FRU should find under a key: empty when the property is missing. */
  function FieldValue(key: string, m: PropertyMap): (r: Value)
    ensures |r| <= MAX_FIELD_LENGTH
  {
    if key in m then Normalised(m[key]) else []
  }

  /** The type/length byte and its data; a missing property has type 0 rather than ASCII. */
  function Field(key: string, m: PropertyMap): (r: seq<byte>) {
    if key in m then [TYPE_ASCII + |Normalised(m[key])|] + Normalised(m[key]) else [NOT_PRESENT]
  }

  function ChassisType(lib: Library, m: PropertyMap): (r: byte) {
    if TYPE in m && lib.stoi(m[TYPE]).Some? then lib.stoi(m[TYPE]).value % 0x100 else 0
  }

  /** Minutes since 1996, or 0 when the date is missing, empty or out of the three bytes' range. */
  function MfgMinutes(lib: Library, m: PropertyMap): (r: nat)
    ensures r <= MAX_MFG_DATE
  {
    if BUILD_DATE in m && |m[BUILD_DATE]| > 0 then
      var raw := lib.timeStringToRaw(m[BUILD_DATE]);
      if SECS_FROM_1970_TO_1996 <= raw <= SECS_FROM_1970_TO_1996 + SECS_PER_MIN * MAX_MFG_DATE
      then (raw - SECS_FROM_1970_TO_1996) / SECS_PER_MIN else 0
    else 0
  }

  function LittleEndian3(n: nat): (r: seq<byte>) {
    [n % 0x100, (n / 0x100) % 0x100, (n / 0x1_0000) % 0x100]
  }

  // -------- areas --------

  function Flat(fields: seq<seq<byte>>): (r: seq<byte>) {
    if fields == [] then [] else fields[0] + Flat(fields[1..])
  }

  /** Padded so that the checksum byte ends an 8-byte unit. */
  function Padded(d: seq<byte>): (r: seq<byte>) {
    var pad := (|d| + 1) % RECORD_UNIT;
    if pad == 0 then d else d + Zeros(RECORD_UNIT - pad)
  }

  function Sized(d: seq<byte>): (r: seq<byte>)
    requires |d| >= 2
  {
    d[1 := ((|d| + 1) / RECORD_UNIT) % 0x100]
  }

  function Closed(d: seq<byte>): (r: seq<byte>) { d + [Negated(Sum(d))] }

  function Finished(d: seq<byte>): (r: seq<byte>)
    requires |d| >= 2
  {
    Closed(Sized(Padded(d)))
  }

  function ChassisFields(m: PropertyMap): (r: seq<seq<byte>>) {
    [Field(MODEL_NUMBER, m), Field(SERIAL_NUMBER, m)]
  }

  function BoardFields(m: PropertyMap): (r: seq<seq<byte>>) {
    [Field(MANUFACTURER, m), Field(PRETTY_NAME, m), Field(SERIAL_NUMBER, m), Field(PART_NUMBER, m), [NOT_PRESENT]]
  }

  function ProductFields(m: PropertyMap): (r: seq<seq<byte>>) {
    [Field(MANUFACTURER, m), Field(PRETTY_NAME, m), Field(MODEL_NUMBER, m), Field(VERSION, m),
     Field(SERIAL_NUMBER, m), [NOT_PRESENT], [NOT_PRESENT]]
  }

  /** What ends an area's fields: an empty custom field, if any, and the end marker. */
  function Tail(emptyCustom: bool): (r: seq<byte>) {
    if emptyCustom then [NOT_PRESENT, END_OF_CUSTOM_FIELDS] else [END_OF_CUSTOM_FIELDS]
  }

  function ChassisArea(lib: Library, m: PropertyMap): (r: seq<byte>) {
    if m == map[] then []
    else Finished([SPEC_VERSION, 0, ChassisType(lib, m)] + Flat(ChassisFields(m)) + Tail(false))
  }

  function BoardArea(lib: Library, m: PropertyMap): (r: seq<byte>) {
    if m == map[] then []
    else Finished([SPEC_VERSION, 0, ENGLISH] + LittleEndian3(MfgMinutes(lib, m)) + Flat(BoardFields(m))
                  + Tail(true))
  }

  function ProductArea(m: PropertyMap): (r: seq<byte>) {
    if m == map[] then []
    else Finished([SPEC_VERSION, 0, ENGLISH] + Flat(ProductFields(m)) + Tail(true))
  }

  function Section(name: string, inventory: Inventory): (r: PropertyMap) {
    if name in inventory then inventory[name] else map[]
  }

  // -------- the whole blob --------

  /** `buildCommonHeaderSection`: the header byte, and the offset behind the area. */
  function HeaderByte(size: nat, offset: nat): (r: byte) {
    if size == 0 then NOT_PRESENT else (RoundedUp(offset) / RECORD_UNIT) % 0x100
  }

  function RoundedUp(offset: nat): (r: nat) {
    if offset % RECORD_UNIT > 0 then offset + RECORD_UNIT - offset % RECORD_UNIT else offset
  }

  /** Offsets are sixteen bits wide. */
  function OffsetAfter(size: nat, offset: nat): (r: nat) {
    if size == 0 then offset else (RoundedUp(offset) + size) % 0x1_0000
  }

  function CommonHeader(chassis: nat, board: nat, product: nat): (r: seq<byte>) {
    var o1 := OffsetAfter(chassis, COMMON_HEADER_SIZE);
    var o2 := OffsetAfter(board, o1);
    Closed([SPEC_VERSION, NOT_PRESENT, HeaderByte(chassis, COMMON_HEADER_SIZE), HeaderByte(board, o1),
            HeaderByte(product, o2), NOT_PRESENT, NOT_PRESENT])
  }

  function PaddedTo(d: seq<byte>, size: nat, v: byte): (r: seq<byte>) {
    if |d| < size then d + seq(size - |d|, _ => v) else d
  }

  function Assembled(c: seq<byte>, b: seq<byte>, p: seq<byte>): (r: seq<byte>) {
    PaddedTo(CommonHeader(|c|, |b|, |p|) + c + b + p, FRU_SIZE, FRU_PAD)
  }

  function Blob(lib: Library, inventory: Inventory): (r: seq<byte>) {
    var chassis := ChassisArea(lib, Section(CHASSIS, inventory));
    var board := BoardArea(lib, Section(BOARD, inventory));
    var product := ProductArea(Section(PRODUCT, inventory));
    Assembled(chassis, board, product)
  }

  // -------- sizes and checksums --------

  /** Lengths and offsets are stored in units of eight bytes. */
  function InBytes(units: byte): (r: nat) { RECORD_UNIT * units as int }

  lemma {:induction false} FlatBounded(fields: seq<seq<byte>>)
    requires forall f | f in fields :: 1 <= |f| <= 1 + MAX_FIELD_LENGTH
    ensures |fields| <= |Flat(fields)| <= |fields| * (1 + MAX_FIELD_LENGTH)
  {
    if fields != [] { FlatBounded(fields[1..]); }
  }

  /** Every area is whole 8-byte units, says so in its second byte, sums to zero, keeps its content, and has only zeros
      between that and its checksum. */
  lemma FinishedArea(d: seq<byte>)
    requires 2 <= |d| <= 2000
    ensures |d| < |Finished(d)| <= |d| + 8 && |Finished(d)| % 8 == 0
    ensures InBytes(Finished(d)[1]) == |Finished(d)|
    ensures ZeroSum(Finished(d))
    ensures Finished(d)[0] == d[0]
    ensures Finished(d)[..|d|] == d[1 := Finished(d)[1]]
    ensures forall k | |d| <= k < |Finished(d)| - 1 :: Finished(d)[k] == 0
  {
    var p := Padded(d);
    assert |p| <= |d| + 7 && p[..|d|] == d;
    ChecksumCloses(Sized(p));
    assert Finished(d)[..|p|] == Sized(p);
  }

  ghost predicate GoodArea(area: seq<byte>, maxSize: nat) {
    && |area| <= maxSize && |area| % 8 == 0
    && (area != [] ==> |area| >= 8 && area[0] == SPEC_VERSION && InBytes(area[1]) == |area| && ZeroSum(area))
  }

  lemma AreaConsistent(d: seq<byte>, maxSize: nat)
    requires 3 <= |d| < maxSize <= 1000 && maxSize % 8 == 0 && d[0] == SPEC_VERSION
    ensures GoodArea(Finished(d), maxSize)
  {
    FinishedArea(d);
  }

  lemma FlatFirst(f: seq<byte>, fields: seq<seq<byte>>)
    ensures Flat([f] + fields) == f + Flat(fields)
  {
    assert ([f] + fields)[1..] == fields;
  }

  lemma ConcatAssociates(a: seq<byte>, b: seq<byte>, c: seq<byte>)
    ensures a + (b + c) == a + b + c
  {}

  lemma {:induction false} FlatConcat(a: seq<seq<byte>>, b: seq<seq<byte>>)
    ensures Flat(a + b) == Flat(a) + Flat(b)
    decreases |a|
  {
    if a == [] {
      assert a + b == b;
    } else {
      FlatConcat(a[1..], b);
      FlatFirst(a[0], a[1..] + b);
      assert a + b == [a[0]] + (a[1..] + b);
      ConcatAssociates(a[0], Flat(a[1..]), Flat(b));
    }
  }

  lemma FlatAppend(fields: seq<seq<byte>>, f: seq<byte>)
    ensures Flat(fields + [f]) == Flat(fields) + f
  {
    FlatConcat(fields, [f]);
    assert [f][1..] == [];
    assert Flat([f]) == f + Flat([]);
  }

  lemma ChassisAreaConsistent(lib: Library, m: PropertyMap)
    ensures GoodArea(ChassisArea(lib, m), 136)
  {
    FlatBounded(ChassisFields(m));
    if m != map[] {
      AreaConsistent([SPEC_VERSION, 0, ChassisType(lib, m)] + Flat(ChassisFields(m)) + Tail(false), 136);
    }
  }

  lemma BoardAreaConsistent(lib: Library, m: PropertyMap)
    ensures GoodArea(BoardArea(lib, m), 272)
  {
    var fields := [Field(MANUFACTURER, m), Field(PRETTY_NAME, m), Field(SERIAL_NUMBER, m), Field(PART_NUMBER, m)];
    FlatBounded(fields);
    FlatAppend(fields, [NOT_PRESENT]);
    assert BoardFields(m) == fields + [[NOT_PRESENT]];
    if m != map[] {
      AreaConsistent([SPEC_VERSION, 0, ENGLISH] + LittleEndian3(MfgMinutes(lib, m)) + Flat(BoardFields(m))
                     + Tail(true), 272);
    }
  }

  lemma ProductAreaConsistent(m: PropertyMap)
    ensures GoodArea(ProductArea(m), 328)
  {
    var fields := [Field(MANUFACTURER, m), Field(PRETTY_NAME, m), Field(MODEL_NUMBER, m), Field(VERSION, m),
                   Field(SERIAL_NUMBER, m)];
    FlatBounded(fields);
    TwoEmptyFields(fields);
    assert ProductFields(m) == fields + [[NOT_PRESENT], [NOT_PRESENT]];
    if m != map[] {
      UndatedAreaConsistent(ProductFields(m));
    }
  }

  lemma TwoEmptyFields(fields: seq<seq<byte>>)
    ensures |Flat(fields + [[NOT_PRESENT], [NOT_PRESENT]])| == |Flat(fields)| + 2
  {
    FlatAppend(fields, [NOT_PRESENT]);
    FlatAppend(fields + [[NOT_PRESENT]], [NOT_PRESENT]);
    assert fields + [[NOT_PRESENT]] + [[NOT_PRESENT]] == fields + [[NOT_PRESENT], [NOT_PRESENT]];
  }

  lemma UndatedAreaConsistent(fields: seq<seq<byte>>)
    requires |Flat(fields)| <= 322
    ensures GoodArea(Finished([SPEC_VERSION, 0, ENGLISH] + Flat(fields) + Tail(true)), 328)
  {
    AreaConsistent([SPEC_VERSION, 0, ENGLISH] + Flat(fields) + Tail(true), 328);
  }

  /** Whether header byte `h` and the area's place in the blob agree. */
  ghost predicate Located(blob: seq<byte>, h: byte, area: seq<byte>) {
    if area == [] then h == NOT_PRESENT
    else h != 0 && InBytes(h) + |area| <= |blob| && blob[InBytes(h)..InBytes(h) + |area|] == area
  }

  lemma HeaderByteFits(size: nat, offset: nat)
    requires size % 8 == offset % 8 == 0 && size < 1000 && offset < 1000
    ensures OffsetAfter(size, offset) == offset + size && (offset + size) % 8 == 0
    ensures InBytes(HeaderByte(size, offset)) == if size == 0 then 0 else offset
  {}

  lemma HeaderOffsets(c: nat, b: nat, p: nat)
    requires c % 8 == b % 8 == p % 8 == 0 && c <= 136 && b <= 272 && p <= 328
    ensures var h := CommonHeader(c, b, p);
            && |h| == 8 && h[0] == SPEC_VERSION && h[1] == h[5] == h[6] == 0 && ZeroSum(h)
            && InBytes(h[2]) == (if c == 0 then 0 else 8)
            && InBytes(h[3]) == (if b == 0 then 0 else 8 + c)
            && InBytes(h[4]) == (if p == 0 then 0 else 8 + c + b)
  {
    var o1 := OffsetAfter(c, COMMON_HEADER_SIZE);
    var o2 := OffsetAfter(b, o1);
    HeaderByteFits(c, COMMON_HEADER_SIZE);
    HeaderByteFits(b, o1);
    HeaderByteFits(p, o2);
    ChecksumCloses([SPEC_VERSION, NOT_PRESENT, HeaderByte(c, COMMON_HEADER_SIZE), HeaderByte(b, o1),
                    HeaderByte(p, o2), NOT_PRESENT, NOT_PRESENT]);
  }

  lemma AssemblyConsistent(c: seq<byte>, b: seq<byte>, p: seq<byte>)
    requires GoodArea(c, 136) && GoodArea(b, 272) && GoodArea(p, 328)
    ensures var blob := Assembled(c, b, p);
            && |blob| == FRU_SIZE
            && blob[0] == SPEC_VERSION && blob[1] == blob[5] == blob[6] == 0 && ZeroSum(blob[..8])
            && Located(blob, blob[2], c) && Located(blob, blob[3], b) && Located(blob, blob[4], p)
            && forall k | 8 + |c| + |b| + |p| <= k < |blob| :: blob[k] == 0xFF
  {
    var h, blob := CommonHeader(|c|, |b|, |p|), Assembled(c, b, p);
    HeaderOffsets(|c|, |b|, |p|);
    PiecesLocated(h, c, b, p);
    HeaderBytes(blob, h);
    LocatedAt(blob, h[2], c, 8);
    LocatedAt(blob, h[3], b, 8 + |c|);
    LocatedAt(blob, h[4], p, 8 + |c| + |b|);
  }

  lemma LocatedAt(blob: seq<byte>, h: byte, area: seq<byte>, start: nat)
    requires 8 <= start && start + |area| <= |blob| && blob[start..start + |area|] == area
    requires InBytes(h) == if |area| == 0 then 0 else start
    ensures Located(blob, h, area)
  {}

  lemma HeaderBytes(blob: seq<byte>, h: seq<byte>)
    requires |h| == 8 <= |blob| && blob[..8] == h
    ensures forall k | 0 <= k < 8 :: blob[k] == h[k]
  {}

  /** The offsets are computed apart from the concatenation, yet every one points at its area. */
  lemma LayoutConsistent(lib: Library, inventory: Inventory)
    ensures var blob := Blob(lib, inventory);
            && |blob| == 0x27E0
            && blob[0] == SPEC_VERSION && blob[1] == blob[5] == blob[6] == 0 && ZeroSum(blob[..8])
            && Located(blob, blob[2], ChassisArea(lib, Section(CHASSIS, inventory)))
            && Located(blob, blob[3], BoardArea(lib, Section(BOARD, inventory)))
            && Located(blob, blob[4], ProductArea(Section(PRODUCT, inventory)))
    ensures var used := 8 + |ChassisArea(lib, Section(CHASSIS, inventory))|
                + |BoardArea(lib, Section(BOARD, inventory))| + |ProductArea(Section(PRODUCT, inventory))|;
            forall k | used <= k < |Blob(lib, inventory)| :: Blob(lib, inventory)[k] == 0xFF
  {
    ChassisAreaConsistent(lib, Section(CHASSIS, inventory));
    BoardAreaConsistent(lib, Section(BOARD, inventory));
    ProductAreaConsistent(Section(PRODUCT, inventory));
    AssemblyConsistent(ChassisArea(lib, Section(CHASSIS, inventory)), BoardArea(lib, Section(BOARD, inventory)),
                       ProductArea(Section(PRODUCT, inventory)));
  }

  lemma PiecesLocated(h: seq<byte>, c: seq<byte>, b: seq<byte>, p: seq<byte>)
    requires |h| == 8 && |c| + |b| + |p| <= 800
    ensures var blob := PaddedTo(h + c + b + p, FRU_SIZE, FRU_PAD);
            && |blob| == FRU_SIZE && blob[..8] == h
            && blob[8..8 + |c|] == c
            && blob[8 + |c|..8 + |c| + |b|] == b
            && blob[8 + |c| + |b|..8 + |c| + |b| + |p|] == p
            && forall k | 8 + |c| + |b| + |p| <= k < |blob| :: blob[k] == 0xFF
  {}
}
