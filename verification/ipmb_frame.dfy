/** The IPMB frame codec: `IpmbRequest`/`IpmbResponse` to and from I2C bytes, and the two checksums. */
module IpmbFrame {
  import opened Bytes

  const CONNECTION_HEADER_LENGTH := 3
  const MIN_FRAME_LENGTH := 7
  const MAX_FRAME_LENGTH := 265
  const NETFN_RESPONSE_MASK := 1

  // -------- bit fields --------

  function NetFnLunSet(netFn: byte, lun: byte): (r: byte) { (netFn * 4) % 0x100 + lun % 4 }

  function SeqLunSet(seqNum: byte, lun: byte): (r: byte) { (seqNum * 4) % 0x100 + lun % 4 }

  /** `netFn | 1`. */
  function RespNetFn(netFn: byte): (r: byte) { if netFn % 2 == 0 then netFn + 1 else netFn }

  // -------- messages as values --------

  datatype RequestMsg = RequestMsg(address: byte, netFn: byte, rsLun: byte, rqSA: byte, seqNum: byte,
                                   rqLun: byte, cmd: byte, data: seq<byte>)
  {
    /** The fields fit the bits that the header keeps of them. */
    predicate FitsHeader() { netFn < 64 && rsLun < 4 && seqNum < 64 && rqLun < 4 }

    /** What the header has room for. */
    function Truncated(): (r: RequestMsg) {
      this.(netFn := netFn % 64, rsLun := rsLun % 4, seqNum := seqNum % 64, rqLun := rqLun % 4)
    }

    /** Everything between the connection header and the last checksum. */
    function Body(): (r: seq<byte>) { [rqSA, SeqLunSet(seqNum, rqLun), cmd] + data }

    predicate Encodable() { |data| <= 257 }
  }

  datatype ResponseMsg = ResponseMsg(address: byte, netFn: byte, rqLun: byte, rsSA: byte, seqNum: byte,
                                     rsLun: byte, cmd: byte, completionCode: byte, data: seq<byte>)
  {
    predicate FitsHeader() { netFn < 64 && rsLun < 4 && seqNum < 64 && rqLun < 4 }

    function Truncated(): (r: ResponseMsg) {
      this.(netFn := netFn % 64, rqLun := rqLun % 4, seqNum := seqNum % 64, rsLun := rsLun % 4)
    }

    function Body(): (r: seq<byte>) { [rsSA, SeqLunSet(seqNum, rsLun), cmd, completionCode] + data }

    predicate Encodable() { |data| <= 256 }
  }

  // -------- frames as values --------

  /** The second checksum is computed over a length that was cut to eight bits. */
  function BodyChecksum(body: seq<byte>): (r: byte) {
    Negated(Sum(body[..|body| % 0x100]))
  }

  /** A frame as it is on the bus, that is, without the driver's leading length byte. */
  function Framed(address: byte, netFnLun: byte, body: seq<byte>): (r: seq<byte>) {
    [address, netFnLun, Negated(address + netFnLun)] + body + [BodyChecksum(body)]
  }

  function RequestFrame(m: RequestMsg): (r: seq<byte>) {
    Framed(m.address, NetFnLunSet(m.netFn, m.rsLun), m.Body())
  }

  function ResponseFrame(m: ResponseMsg): (r: seq<byte>) {
    Framed(m.address, NetFnLunSet(m.netFn, m.rqLun), m.Body())
  }

  /** The driver's length byte in front of a frame. */
  function WithLength(frame: seq<byte>): (r: seq<byte>) {
    [|frame| % 0x100] + frame
  }

  /** `isFrameValid`: its length arithmetic is eight bits wide. */
  predicate FrameValid(frame: seq<byte>)
    requires |frame| >= CONNECTION_HEADER_LENGTH
  {
    && ZeroSum(frame[..3])
    && ZeroSum(frame[3..3 + (|frame| - 3) % 0x100])
  }

  predicate IsResponse(frame: seq<byte>)
    requires |frame| >= 2
  {
    (frame[1] / 4) % 2 == NETFN_RESPONSE_MASK
  }

  /** The decoder leaves the target address alone. */
  function DecodedRequest(frame: seq<byte>, address: byte): (r: RequestMsg)
    requires |frame| >= 7
  {
    RequestMsg(address, frame[1] / 4, frame[1] % 4, frame[3], frame[4] / 4, frame[4] % 4, frame[5],
               frame[6..|frame| - 1])
  }

  function DecodedResponse(frame: seq<byte>, address: byte): (r: ResponseMsg)
    requires |frame| >= 8
  {
    ResponseMsg(address, frame[1] / 4, frame[1] % 4, frame[3], frame[4] / 4, frame[4] % 4, frame[5],
                frame[6], frame[7..|frame| - 1])
  }

  // -------- properties of the codec --------

  lemma BitFieldsComeBack(high: byte, lun: byte)
    ensures NetFnLunSet(high, lun) / 4 == high % 64 && NetFnLunSet(high, lun) % 4 == lun % 4
    ensures SeqLunSet(high, lun) / 4 == high % 64 && SeqLunSet(high, lun) % 4 == lun % 4
  {
    assert (high * 4) % 0x100 == (high % 64) * 4;
  }

  lemma HeaderClosed(address: byte, netFnLun: byte)
    ensures ZeroSum([address, netFnLun, Negated(address + netFnLun)])
  {
    var h := [address, netFnLun];
    SumOfTwo(address, netFnLun);
    ChecksumCloses(h);
    assert h + [Negated(Sum(h))] == [address, netFnLun, Negated(address + netFnLun)];
  }

  /** Which frames the validator accepts, for every body either encoder can produce. */
  lemma FramedValidity(address: byte, netFnLun: byte, body: seq<byte>)
    requires 3 <= |body| <= 260
    ensures FrameValid(Framed(address, netFnLun, body))
       <==> |body| <= 255 || ZeroSum(body[..|body| - 255])
  {
    var f := Framed(address, netFnLun, body);
    HeaderClosed(address, netFnLun);
    assert f[..3] == [address, netFnLun, Negated(address + netFnLun)];
    if |body| <= 254 {
      assert (|f| - 3) % 0x100 == |body| + 1;
      assert body[..|body| % 0x100] == body;
      ChecksumCloses(body);
      assert f[3..3 + (|body| + 1)] == body + [BodyChecksum(body)];
    } else {
      assert (|f| - 3) % 0x100 == |body| - 255;
      assert f[3..3 + (|body| - 255)] == body[..|body| - 255];
    }
  }

  /** Up to 252 data bytes every encoded request is accepted; beyond, only by luck of its first bytes. */
  lemma RequestFrameAccepted(m: RequestMsg)
    requires m.Encodable()
    ensures FrameValid(RequestFrame(m)) <==> |m.data| <= 252 || ZeroSum(m.Body()[..|m.data| - 252])
  {
    FramedValidity(m.address, NetFnLunSet(m.netFn, m.rsLun), m.Body());
  }

  lemma ResponseFrameAccepted(m: ResponseMsg)
    requires m.Encodable()
    ensures FrameValid(ResponseFrame(m)) <==> |m.data| <= 251 || ZeroSum(m.Body()[..|m.data| - 251])
  {
    FramedValidity(m.address, NetFnLunSet(m.netFn, m.rqLun), m.Body());
  }

  /** Decoding undoes encoding, up to the bits the header has no room for; data of any length comes back. */
  lemma RequestRoundTrip(m: RequestMsg)
    ensures DecodedRequest(RequestFrame(m), m.address)
         == m.Truncated()
  {
    var f := RequestFrame(m);
    BitFieldsComeBack(m.netFn, m.rsLun);
    BitFieldsComeBack(m.seqNum, m.rqLun);
    assert f[1] == NetFnLunSet(m.netFn, m.rsLun);
    assert f[3..6] == m.Body()[..3];
    assert f[3] == m.rqSA && f[4] == SeqLunSet(m.seqNum, m.rqLun) && f[5] == m.cmd;
    assert f[6..|f| - 1] == m.data;
  }

  lemma ResponseRoundTrip(m: ResponseMsg)
    ensures DecodedResponse(ResponseFrame(m), m.address)
         == m.Truncated()
  {
    var f := ResponseFrame(m);
    BitFieldsComeBack(m.netFn, m.rqLun);
    BitFieldsComeBack(m.seqNum, m.rsLun);
    assert f[1] == NetFnLunSet(m.netFn, m.rqLun);
    assert f[3..7] == m.Body()[..4];
    assert f[3] == m.rsSA && f[4] == SeqLunSet(m.seqNum, m.rsLun) && f[5] == m.cmd && f[6] == m.completionCode;
    assert f[7..|f| - 1] == m.data;
  }

  /** What the driver is handed: a length byte that is right exactly if the frame has at most 255 bytes, the target
      address, whose sum with the next two bytes is zero, and at the end a byte that cancels the body - or, if that has
      256 bytes or more, only what of it is beyond 256. */
  ghost predicate OnTheWire(w: seq<byte>, address: byte, bodyLength: nat) {
    && |w| == bodyLength + 5
    && (w[0] as int == |w| - 1 <==> |w| - 1 <= 255)
    && w[1] == address && (w[1] as int + w[2] as int + w[3] as int) % 256 == 0
    && ZeroSum(w[4..4 + bodyLength % 256] + [w[|w| - 1]])
  }

  lemma NegationCancels(a: byte, b: byte)
    ensures (a as int + b as int + Negated(a + b) as int) % 256 == 0
  {
    NegationCloses(a + b);
  }

  lemma FramedOnTheWire(address: byte, netFnLun: byte, body: seq<byte>)
    ensures OnTheWire(WithLength(Framed(address, netFnLun, body)), address, |body|)
  {
    var w := WithLength(Framed(address, netFnLun, body));
    NegationCancels(address, netFnLun);
    assert w[4..4 + |body| % 256] == body[..|body| % 256];
    ChecksumCloses(body[..|body| % 256]);
  }

  lemma MessagesOnTheWire(m: RequestMsg, n: ResponseMsg)
    ensures OnTheWire(WithLength(RequestFrame(m)), m.address, |m.data| + 3)
    ensures OnTheWire(WithLength(ResponseFrame(n)), n.address, |n.data| + 4)
  {
    FramedOnTheWire(m.address, NetFnLunSet(m.netFn, m.rsLun), m.Body());
    FramedOnTheWire(n.address, NetFnLunSet(n.netFn, n.rqLun), n.Body());
  }

  /** The receiver tells responses from requests by the low bit of the network function. */
  lemma ResponseRecognised(m: ResponseMsg)
    ensures IsResponse(ResponseFrame(m)) <==> m.netFn % 2 == 1
  {
    BitFieldsComeBack(m.netFn, m.rqLun);
  }

  lemma TruncationIsIdentityExactlyIfFieldsFit(m: RequestMsg, n: ResponseMsg)
    ensures m.Truncated() == m <==> m.FitsHeader()
    ensures n.Truncated() == n <==> n.FitsHeader()
  {}

  predicate SurvivesChange(frame: seq<byte>, i: nat, v: byte)
    requires |frame| >= 3 && i < |frame|
  {
    v != frame[i] && FrameValid(frame[i := v])
  }

  ghost predicate EveryByteGuarded(frame: seq<byte>)
    requires |frame| >= 3
  {
    forall i: nat, v: byte | i < |frame| :: !SurvivesChange(frame, i, v)
  }

  lemma OneByteChangeIsRejected(frame: seq<byte>, i: nat, v: byte)
    requires 3 <= |frame| <= 258 && FrameValid(frame)
    requires i < |frame| && v != frame[i]
    ensures !FrameValid(frame[i := v])
  {
    var g := frame[i := v];
    assert (|frame| - 3) % 0x100 == |frame| - 3;
    if i < 3 {
      OneByteChangeBreaksSum(frame[..3], i, v);
      assert g[..3] == frame[..3][i := v];
    } else {
      assert frame[3..3 + (|frame| - 3)] == frame[3..];
      OneByteChangeBreaksSum(frame[3..], i - 3, v);
      assert g[3..3 + (|g| - 3)] == frame[3..][i - 3 := v];
    }
  }

  /** Beyond 258 bytes the validator no longer looks at the last byte. */
  lemma LastByteOfLongFrameUnguarded(frame: seq<byte>, v: byte)
    requires |frame| > 258 && FrameValid(frame)
    ensures FrameValid(frame[|frame| - 1 := v])
  {
    var g := frame[|frame| - 1 := v];
    var n := (|frame| - 3) % 0x100;
    assert g[..3] == frame[..3];
    assert g[3..3 + n] == frame[3..3 + n];
  }

  /** A valid frame is protected against every change of one byte exactly up to 258 bytes. */
  lemma SingleByteProtection(frame: seq<byte>)
    requires |frame| >= 3 && FrameValid(frame)
    ensures EveryByteGuarded(frame) <==> |frame| <= 258
  {
    if |frame| <= 258 {
      forall i: nat, v: byte | i < |frame| ensures !SurvivesChange(frame, i, v) {
        if v != frame[i] {
          OneByteChangeIsRejected(frame, i, v);
        }
      }
    } else {
      var last := |frame| - 1;
      var v: byte := if frame[last] == 0 then 1 else 0;
      LastByteOfLongFrameUnguarded(frame, v);
      assert SurvivesChange(frame, last, v);
    }
  }

  // -------- the imperative codec --------

  /** `ipmbChecksumCompute`: an eight-bit accumulator over `length` bytes from `start`. */
  method ChecksumCompute(data: array<byte>, start: nat, length: byte) returns (checksum: byte)
    requires start + length <= data.Length
    ensures checksum == Negated(Sum(data[start..start + length]))
  {
    checksum := 0;
    for idx := 0 to length
      invariant checksum == Sum(data[start..start + idx]) % 0x100
    {
      assert data[start..start + idx + 1][..idx] == data[start..start + idx];
      checksum := (checksum + data[start + idx]) % 0x100;
    }
    checksum := (0xFF - checksum + 1) % 0x100;
  }

  method ChecksumValidate(data: array<byte>, start: nat, length: byte) returns (valid: bool)
    requires start + length <= data.Length
    ensures valid <==> ZeroSum(data[start..start + length])
  {
    var checksum: byte := 0;
    for idx := 0 to length
      invariant checksum == Sum(data[start..start + idx]) % 0x100
    {
      assert data[start..start + idx + 1][..idx] == data[start..start + idx];
      checksum := (checksum + data[start + idx]) % 0x100;
    }
    valid := checksum == 0;
  }

  lemma EightBitLength(r: nat)
    requires r >= 3
    ensures (r % 0x100 - 3) % 0x100 == (r - 3) % 0x100 <= r - 3
  {}

  /** `isFrameValid` on a receive buffer whose first byte is the driver's length byte. */
  method IsFrameValid(buffer: array<byte>, r: nat) returns (valid: bool)
    requires MIN_FRAME_LENGTH <= r < buffer.Length
    ensures valid <==> FrameValid(buffer[1..1 + r])
  {
    var length: byte := r % 0x100;
    var n: byte := (length - CONNECTION_HEADER_LENGTH) % 0x100;
    EightBitLength(r);
    valid := ChecksumValidate(buffer, 1, CONNECTION_HEADER_LENGTH);
    if valid {
      valid := ChecksumValidate(buffer, 1 + CONNECTION_HEADER_LENGTH, n);
    }
    assert buffer[1..1 + r][..3] == buffer[1..4];
    SliceOfSlice(buffer[..], 1, 1 + r, 3, 3 + n);
    assert buffer[1..1 + r] == buffer[..][1..1 + r];
    assert buffer[1..1 + r][3..3 + n] == buffer[4..4 + n];
  }

  /** Copies `body` to offset `start`, touching nothing before it. */
  method CopyInto(buffer: array<byte>, start: nat, body: seq<byte>)
    requires start + |body| <= buffer.Length
    modifies buffer
    ensures buffer[..] == old(buffer[..start]) + body + old(buffer[start + |body|..])
  {
    for i := 0 to |body|
      invariant forall k | 0 <= k < start || start + i <= k < buffer.Length :: buffer[k] == old(buffer[k])
      invariant forall k | 0 <= k < i :: buffer[start + k] == body[k]
    {
      buffer[start + i] := body[i];
    }
  }

  lemma FrameParts(address: byte, netFnLun: byte, body: seq<byte>, before: seq<byte>, rest: seq<byte>)
    requires |rest| == 1
    requires before == [(|body| + 4) % 0x100, address, netFnLun, Negated(address + netFnLun)]
    ensures (before + body + rest)[4..4 + |body| % 0x100] == body[..|body| % 0x100]
    ensures (before + body + rest)[|body| + 4 := BodyChecksum(body)]
         == WithLength(Framed(address, netFnLun, body))
  {
    var f := Framed(address, netFnLun, body);
    var g := (before + body + rest)[|body| + 4 := BodyChecksum(body)];
    assert g == before + body + [BodyChecksum(body)];
    assert before == [|f| % 0x100] + [address, netFnLun, Negated(address + netFnLun)];
  }

  /** Computes the last checksum, over a length that was cut to eight bits. */
  method CloseFrame(buffer: array<byte>, address: byte, netFnLun: byte, ghost body: seq<byte>, ghost before: seq<byte>,
                    ghost rest: seq<byte>)
    requires buffer[..] == before + body + rest && |rest| == 1
    requires before == [(|body| + 4) % 0x100, address, netFnLun, Negated(address + netFnLun)]
    modifies buffer
    ensures buffer[..] == WithLength(Framed(address, netFnLun, body))
  {
    var bodyLength := buffer.Length - 5;
    ghost var full := buffer[..];
    FrameParts(address, netFnLun, body, before, rest);
    assert buffer[4..4 + bodyLength % 0x100] == full[4..4 + bodyLength % 0x100];
    var checksum := ChecksumCompute(buffer, 4, bodyLength % 0x100);
    buffer[buffer.Length - 1] := checksum;
    assert buffer[..] == full[buffer.Length - 1 := checksum];
  }

  /** Lays a body out behind the connection header; the two encoders differ only in the body. */
  method FillFrame(address: byte, netFnLun: byte, body: seq<byte>) returns (buffer: array<byte>)
    requires 3 <= |body| <= 260
    ensures fresh(buffer) && buffer[..] == WithLength(Framed(address, netFnLun, body))
  {
    var bufferLength := |body| + 5;
    buffer := new byte[bufferLength](_ => 0);
    buffer[0] := (bufferLength - 1) % 0x100;
    buffer[1] := address;
    buffer[2] := netFnLun;
    SumOfTwo(address, netFnLun);
    assert buffer[1..1 + 2] == [address, netFnLun];
    buffer[3] := ChecksumCompute(buffer, 1, 2);
    ghost var before := buffer[..4];
    ghost var rest := buffer[4 + |body|..];
    CopyInto(buffer, 4, body);
    CloseFrame(buffer, address, netFnLun, body, before, rest);
  }

  class IpmbRequest {
    var address: byte
    var netFn: byte
    var rsLun: byte
    var rqSA: byte
    var seqNum: byte
    var rqLun: byte
    var cmd: byte
    var data: seq<byte>

    function Msg(): (r: RequestMsg)
      reads this
    {
      RequestMsg(address, netFn, rsLun, rqSA, seqNum, rqLun, cmd, data)
    }

    constructor (m: RequestMsg)
      ensures Msg() == m
    {
      address, netFn, rsLun, rqSA := m.address, m.netFn, m.rsLun, m.rqSA;
      seqNum, rqLun, cmd, data := m.seqNum, m.rqLun, m.cmd, m.data;
    }

    /** Decoding appends to whatever payload the object already has. */
    method I2cToIpmbConstruct(buffer: array<byte>, r: nat)
      requires MIN_FRAME_LENGTH <= r < buffer.Length
      modifies this
      ensures var m := DecodedRequest(buffer[1..1 + r], old(address)); Msg() == m.(data := old(data) + m.data)
    {
      netFn, rsLun := buffer[2] / 4, buffer[2] % 4;
      rqSA := buffer[4];
      seqNum, rqLun := buffer[5] / 4, buffer[5] % 4;
      cmd := buffer[6];
      var dataLength := r - 7;
      ghost var m := DecodedRequest(buffer[1..1 + r], address);
      assert buffer[7..7 + dataLength] == m.data;
      if dataLength > 0 {
        data := data + buffer[7..7 + dataLength];
      }
      assert data == old(data) + m.data;
      assert Msg() == m.(data := data);
    }

    method IpmbToI2cConstruct() returns (status: int, buffer: array<byte>)
      ensures fresh(buffer)
      ensures status == 0 <==> Msg().Encodable()
      ensures status == 0 ==> buffer[..] == WithLength(RequestFrame(Msg()))
      ensures status != 0 ==> status == -1 && buffer.Length == 0
    {
      if 1 + |data| + 7 > MAX_FRAME_LENGTH {
        buffer := new byte[0];
        return -1, buffer;
      }
      var m := Msg();
      buffer := FillFrame(address, NetFnLunSet(netFn, rsLun), m.Body());
      assert Msg() == m && buffer[..] == WithLength(RequestFrame(m));
      status := 0;
    }
  }

  class IpmbResponse {
    var address: byte
    var netFn: byte
    var rqLun: byte
    var rsSA: byte
    var seqNum: byte
    var rsLun: byte
    var cmd: byte
    var completionCode: byte
    var data: seq<byte>

    function Msg(): (r: ResponseMsg)
      reads this
    {
      ResponseMsg(address, netFn, rqLun, rsSA, seqNum, rsLun, cmd, completionCode, data)
    }

    constructor (m: ResponseMsg)
      ensures Msg() == m
    {
      address, netFn, rqLun, rsSA, seqNum := m.address, m.netFn, m.rqLun, m.rsSA, m.seqNum;
      rsLun, cmd, completionCode, data := m.rsLun, m.cmd, m.completionCode, m.data;
    }

    /** Seven-byte frames pass the receiver's length test, but the decoder needs eight. */
    method I2cToIpmbConstruct(buffer: array<byte>, r: nat)
      requires 8 <= r < buffer.Length
      modifies this
      ensures var m := DecodedResponse(buffer[1..1 + r], old(address)); Msg() == m.(data := old(data) + m.data)
    {
      netFn, rqLun := buffer[2] / 4, buffer[2] % 4;
      rsSA := buffer[4];
      seqNum, rsLun := buffer[5] / 4, buffer[5] % 4;
      cmd := buffer[6];
      completionCode := buffer[7];
      var dataLength := r - 8;
      ghost var m := DecodedResponse(buffer[1..1 + r], address);
      assert buffer[8..8 + dataLength] == m.data;
      if dataLength > 0 {
        data := data + buffer[8..8 + dataLength];
      }
      assert data == old(data) + m.data;
      assert Msg() == m.(data := data);
    }

    method IpmbToI2cConstruct() returns (buffer: array?<byte>)
      ensures buffer != null <==> Msg().Encodable()
      ensures buffer != null ==> fresh(buffer) && buffer[..] == WithLength(ResponseFrame(Msg()))
    {
      if 1 + |data| + 8 > MAX_FRAME_LENGTH {
        return null;
      }
      var m := Msg();
      buffer := FillFrame(address, NetFnLunSet(netFn, rqLun), m.Body());
      assert Msg() == m && buffer[..] == WithLength(ResponseFrame(m));
    }
  }
}
