/** System-info parameters: strings read and written in sixteen-byte blocks, the first of which carries
    an encoding byte, the length and fourteen bytes of text. */
module SystemInfo {
  import opened Bytes
  import opened Chunks

  const BLOCK := 16
  const SMALL_CHUNK := 14
  const OVERHEAD := 2
  const PARAM_REVISION: byte := 0x11
  const SET_COMPLETE: byte := 0
  const SET_IN_PROGRESS: byte := 1
  const INVALID_PARAM_START: byte := 8
  const INVALID_PARAM_END: byte := 191
  const OEM_START: byte := 192
  const OEM_END: byte := 255
  const SYSTEM_NAME: byte := 2

  type Text = seq<byte>

  function PadTo(d: seq<byte>, n: nat): (r: seq<byte>) { if |d| < n then d + Zeros(n - |d|) else d }

  /** Encoding byte, length byte, text: what the blocks are blocks of. */
  function Layout(s: Text): (r: seq<byte>) { [0, |s| % 0x100] + s }

  function Slice(u: seq<byte>, k: nat): (r: seq<byte>) {
    u[Min(BLOCK * k, |u|)..Min(BLOCK * k + BLOCK, |u|)]
  }

  // -------- one block, as the two commands compute it --------

  function ReadBlock(s: Text, k: byte): (r: Option<seq<byte>>) {
    if k == 0 then
      Some(PadTo([0, |s| % 0x100] + s[..Min(|s|, SMALL_CHUNK)], BLOCK))
    else
      var offset := BLOCK * k as int - OVERHEAD;
      if offset >= |s| then None else Some(s[offset..offset + Min(|s| - offset, BLOCK)])
  }

  /** `std::string::resize`. */
  function Resized(s: Text, n: nat): (r: Text)
    ensures |r| == n
  {
    if n <= |s| then s[..n] else s + Zeros(n - |s|)
  }

  function Overwritten(s: Text, offset: nat, d: seq<byte>): (r: Text)
    requires offset + |d| <= |s|
    ensures |r| == |s|
  {
    s[..offset] + d + s[offset + |d|..]
  }

  /** None when the block lies behind the stored string. */
  function WriteBlock(s: Text, k: byte, block: seq<byte>): (r: Option<Text>)
    requires |block| == BLOCK
  {
    if k == 0 then
      var n := block[1];
      var count := Min(n, SMALL_CHUNK);
      Some(Overwritten(Resized(s, n), 0, block[OVERHEAD..OVERHEAD + count]))
    else
      var offset := BLOCK * k as int - OVERHEAD;
      if offset >= |s| then None
      else Some(Overwritten(s, offset, block[..Min(|s| - offset, BLOCK)]))
  }

  /** A read block is a slice of the layout; only block 0 is filled up. */
  lemma ReadIsSlice(s: Text, k: byte)
    ensures ReadBlock(s, k) == if k == 0 then Some(PadTo(Slice(Layout(s), 0), BLOCK))
                               else if BLOCK * k as int < |Layout(s)| then Some(Slice(Layout(s), k)) else None
  {
    if k == 0 {
      assert Slice(Layout(s), 0) == [0, |s| % 0x100] + s[..Min(|s|, SMALL_CHUNK)];
    } else if BLOCK * k as int < |Layout(s)| {
      var offset := BLOCK * k as int - OVERHEAD;
      assert Slice(Layout(s), k) == s[offset..offset + Min(|s| - offset, BLOCK)];
    }
  }

  /** What a write does to every byte. Block 0 sets the length and the first fourteen bytes, keeps those behind them as
      far as they still belong to the string, and fills up with zeros; any other block, unless it lies behind the end,
      sets its own sixteen bytes as far as there are any, and leaves the length alone. */
  lemma WriteExactly(s: Text, k: byte, block: seq<byte>)
    requires |block| == 16
    ensures var w := WriteBlock(s, k, block);
            && (w == None <==> k > 0 && 16 * k as int - 2 >= |s|)
            && (k == 0 ==>
                  && |w.value| == block[1]
                  && forall i | 0 <= i < |w.value| ::
                       w.value[i] == if i < 14 then block[2 + i] else if i < |s| then s[i] else 0)
            && (k > 0 && w.Some? ==>
                  && |w.value| == |s|
                  && forall i | 0 <= i < |s| ::
                       w.value[i] == (var at := i - (16 * k as int - 2); if 0 <= at < 16 then block[at] else s[i]))
  {}

  /** The first `n` blocks one after another. */
  function Blocks(s: Text, n: nat): (r: Option<seq<byte>>)
    requires n <= 0x100
  {
    if n == 0 then Some([])
    else
      var before, last := Blocks(s, n - 1), ReadBlock(s, n - 1);
      if before.Some? && last.Some? then Some(before.value + last.value) else None
  }

  /** Reading block after block gives the layout back, filled up to one block, for every string. */
  lemma {:induction false} BlocksJoin(s: Text, n: nat)
    requires n <= 0x100
    requires n == 0 || BLOCK * (n - 1) < |PadTo(Layout(s), BLOCK)|
    ensures Blocks(s, n) == Some(PadTo(Layout(s), BLOCK)[..Min(BLOCK * n, |PadTo(Layout(s), BLOCK)|)])
  {
    if n > 0 {
      var u := PadTo(Layout(s), BLOCK);
      BlocksJoin(s, n - 1);
      ReadIsSlice(s, n - 1);
      if n == 1 {
        assert PadTo(Slice(Layout(s), 0), BLOCK) == u[..BLOCK];
        assert Blocks(s, 0).value + u[..BLOCK] == u[..BLOCK];
      } else {
        assert u == Layout(s);
        assert u[..BLOCK * (n - 1)] + Slice(u, n - 1) == u[..Min(BLOCK * n, |u|)];
      }
    }
  }

  // -------- a host that writes a whole string --------

  /** Block `k` of the string as a host sends it. */
  function HostBlock(t: Text, k: byte): (r: seq<byte>) { PadTo(Slice(Layout(t), k), BLOCK) }

  /** Block 0 first, then the given blocks in the given order; rejected writes change nothing. */
  function HostWrites(s: Text, t: Text, ks: seq<byte>): (r: Text)
    decreases |ks|
  {
    if ks == [] then WriteBlock(s, 0, HostBlock(t, 0)).value
    else
      var before := HostWrites(s, t, ks[..|ks| - 1]);
      var written := WriteBlock(before, ks[|ks| - 1], HostBlock(t, ks[|ks| - 1]));
      if written.Some? then written.value else before
  }

  /** The block that holds character `i`. */
  function BlockOf(i: nat): (r: nat) { (i + OVERHEAD) / BLOCK }

  predicate Correct(r: Text, t: Text, ks: seq<byte>) {
    && |r| == |t|
    && forall i | 0 <= i < |t| && (BlockOf(i) == 0 || BlockOf(i) in ks) :: r[i] == t[i]
  }

  lemma FirstBlockWritten(s: Text, t: Text)
    requires |t| <= 0xFF
    ensures |HostBlock(t, 0)| == BLOCK && WriteBlock(s, 0, HostBlock(t, 0)).Some?
    ensures Correct(WriteBlock(s, 0, HostBlock(t, 0)).value, t, [])
  {
    var block := HostBlock(t, 0);
    var count := Min(|t|, SMALL_CHUNK);
    assert Slice(Layout(t), 0) == [0, |t|] + t[..count];
    assert block[1] == |t|;
    assert block[OVERHEAD..OVERHEAD + count] == t[..count];
    forall i | 0 <= i < |t| && BlockOf(i) == 0 ensures WriteBlock(s, 0, block).value[i] == t[i] {
      assert i < SMALL_CHUNK;
    }
  }

  lemma HostBlockAt(t: Text, k: byte, i: nat)
    requires k > 0 && i < |t| && BlockOf(i) == k as int
    ensures |HostBlock(t, k)| == BLOCK && HostBlock(t, k)[i - (BLOCK * k as int - OVERHEAD)] == t[i]
  {
    assert Layout(t)[i + OVERHEAD] == t[i];
  }

  lemma OneMoreBlock(before: Text, t: Text, ks: seq<byte>, k: byte)
    requires |t| <= 0xFF && Correct(before, t, ks) && k > 0
    ensures |HostBlock(t, k)| == BLOCK
    ensures var w := WriteBlock(before, k, HostBlock(t, k));
            Correct(if w.Some? then w.value else before, t, ks + [k])
  {
    var w := WriteBlock(before, k, HostBlock(t, k));
    var r := if w.Some? then w.value else before;
    WriteExactly(before, k, HostBlock(t, k));
    forall i | 0 <= i < |t| && (BlockOf(i) == 0 || BlockOf(i) in ks + [k]) ensures r[i] == t[i] {
      if BlockOf(i) == k as int { HostBlockAt(t, k, i); }
    }
  }

  lemma {:induction false} WritesAreCorrect(s: Text, t: Text, ks: seq<byte>)
    requires |t| <= 0xFF && forall k | k in ks :: k > 0
    ensures Correct(HostWrites(s, t, ks), t, ks)
    decreases |ks|
  {
    if ks == [] {
      FirstBlockWritten(s, t);
    } else {
      var init := ks[..|ks| - 1];
      assert ks[|ks| - 1] in ks && forall k | k in init :: k in ks;
      WritesAreCorrect(s, t, init);
      OneMoreBlock(HostWrites(s, t, init), t, init, ks[|ks| - 1]);
      assert init + [ks[|ks| - 1]] == ks;
    }
  }

  lemma {:induction false} LengthIsOneByte(s: Text, t: Text, ks: seq<byte>)
    requires forall k | k in ks :: k > 0
    ensures |HostWrites(s, t, ks)| == |t| % 0x100
    decreases |ks|
  {
    if ks == [] {
      assert HostBlock(t, 0)[1] == Slice(Layout(t), 0)[1] == |t| % 0x100;
    } else {
      var init := ks[..|ks| - 1];
      assert ks[|ks| - 1] in ks && forall k | k in init :: k in ks;
      LengthIsOneByte(s, t, init);
    }
  }

  /** Block 0 and then the remaining blocks, in any order and with any repetition, leave exactly the string,
      whatever was stored before - if and only if its length fits the length byte. */
  lemma WritingAllBlocksStoresString(s: Text, t: Text, ks: seq<byte>)
    requires forall k | k in ks :: k > 0
    requires forall k: byte | 0 < k && BLOCK * k as int - OVERHEAD < |t| :: k in ks
    ensures HostWrites(s, t, ks) == t <==> |t| <= 0xFF
  {
    LengthIsOneByte(s, t, ks);
    if |t| <= 0xFF {
      WritesAreCorrect(s, t, ks);
      forall i | 0 <= i < |t| ensures HostWrites(s, t, ks)[i] == t[i] {
        var k: byte := BlockOf(i);
        assert BLOCK * k as int - OVERHEAD <= i;
      }
    }
  }

  // -------- the two commands --------

  /** A parameter's callback: one that returns a captured copy, or the one that asks for the host name. */
  datatype Param = Captured(text: Text) | SystemName

  datatype Reply =
    | Revision(revision: byte)
    | Progress(revision: byte, status: byte)
    | Data(revision: byte, setSelector: byte, data: seq<byte>)
    | Done | InvalidField | NotSupported | InProgressActive | NoSuchParameter | OutOfRange

  class SystemInfoCommands {
    var created: bool
    var params: map<byte, Param>
    var transferStatus: byte

    constructor ()
      ensures !created && params == map[] && transferStatus == SET_COMPLETE
    {
      created, params, transferStatus := false, map[], SET_COMPLETE;
    }

    /** `SysInfoParamStore::lookup` by way of the stored callback. */
    function Lookup(selector: byte, hostname: Text): (r: Option<Text>)
      reads this
    {
      if selector !in params then None
      else match params[selector] case Captured(text) => Some(text) case SystemName => Some(hostname)
    }

    /** The store is made on first use, with the system name in it. */
    method EnsureStore()
      modifies this`created, this`params
      ensures created
      ensures params == if old(created) then old(params) else map[SYSTEM_NAME := SystemName]
    {
      if !created {
        params := map[SYSTEM_NAME := SystemName];
        created := true;
      }
    }

    method GetSystemInfo(reserved: nat, getRevision: bool, selector: byte, setSelector: byte, blockSelector: byte,
        hostname: Text)
      returns (r: Reply)
      modifies this`created, this`params
      ensures var looked := reserved == 0 && 0 < selector < INVALID_PARAM_START && !getRevision && blockSelector == 0;
              && created == (old(created) || looked)
              && params == if looked && !old(created) then map[SYSTEM_NAME := SystemName] else old(params)
      ensures var bad := reserved != 0 || INVALID_PARAM_START <= selector <= INVALID_PARAM_END;
              r == if bad then InvalidField
                   else if selector >= OEM_START then NotSupported
                   else if getRevision then Revision(PARAM_REVISION)
                   else if selector == 0 then Progress(PARAM_REVISION, transferStatus)
                   else if blockSelector != 0 then NotSupported
                   else match Lookup(selector, hostname)
                        case None => NoSuchParameter
                        case Some(text) =>
                          match ReadBlock(text, setSelector)
                          case None => OutOfRange
                          case Some(block) => Data(PARAM_REVISION, setSelector, block)
    {
      if reserved != 0 || INVALID_PARAM_START <= selector <= INVALID_PARAM_END {
        return InvalidField;
      }
      if selector >= OEM_START && selector <= OEM_END {
        return NotSupported;
      }
      if getRevision {
        return Revision(PARAM_REVISION);
      }
      if selector == 0 {
        return Progress(PARAM_REVISION, transferStatus);
      }
      if blockSelector != 0 {
        return NotSupported;
      }
      EnsureStore();
      var found := Lookup(selector, hostname);
      if found == None {
        return NoSuchParameter;
      }
      var text := found.value;
      var configData: seq<byte> := [];
      if setSelector == 0 {
        configData := [0, |text| % 0x100];
        var count := Min(|text|, SMALL_CHUNK);
        configData := configData + text[..count];
        if |configData| < BLOCK {
          configData := configData + Zeros(BLOCK - |configData|);
        }
      } else {
        var offset := BLOCK * setSelector as int - OVERHEAD;
        if offset >= |text| {
          return OutOfRange;
        }
        var count := Min(|text| - offset, BLOCK);
        configData := text[offset..offset + count];
      }
      return Data(PARAM_REVISION, setSelector, configData);
    }

    /** The 'set in progress' parameter: a second set while one is in progress is refused. */
    method SetProgress(data1: byte) returns (r: Reply)
      modifies this`transferStatus
      ensures r == InProgressActive <==> old(transferStatus) != SET_COMPLETE && data1 == SET_IN_PROGRESS
      ensures r == InvalidField <==> data1 > SET_IN_PROGRESS
      ensures r in {InProgressActive, InvalidField, Done}
      ensures transferStatus == if r == Done then data1 else old(transferStatus)
    {
      if transferStatus != SET_COMPLETE && data1 == SET_IN_PROGRESS {
        return InProgressActive;
      }
      if data1 > SET_IN_PROGRESS {
        return InvalidField;
      }
      transferStatus := data1 % 4;
      return Done;
    }

    method SetSystemInfo(selector: byte, data1: byte, configData: seq<byte>, hostname: Text) returns (r: Reply)
      modifies this
      ensures INVALID_PARAM_START <= selector <= INVALID_PARAM_END ==> r == InvalidField
      ensures selector >= OEM_START ==> r == NotSupported
      ensures selector != 0 ==> transferStatus == old(transferStatus)
      ensures r in {InvalidField, NotSupported} || selector == 0 ==> created == old(created) && params == old(params)
      ensures selector == 0 ==>
                && r == (if data1 > SET_IN_PROGRESS then InvalidField
                         else if old(transferStatus) != SET_COMPLETE && data1 == SET_IN_PROGRESS
                              then InProgressActive else Done)
                && transferStatus == if r == Done then data1 else old(transferStatus)
      ensures 0 < selector < INVALID_PARAM_START && |configData| > BLOCK ==> r == InvalidField
      ensures 0 < selector < INVALID_PARAM_START && |configData| <= BLOCK ==>
                var before := if old(created) then old(params) else map[SYSTEM_NAME := SystemName];
                var text := if selector !in before then []
                            else match before[selector] case Captured(t) => t case SystemName => hostname;
                match WriteBlock(text, data1, PadTo(configData, BLOCK))
                case None => r == OutOfRange && params == before
                case Some(written) => r == Done && params == before[selector := Captured(written)]
    {
      if INVALID_PARAM_START <= selector <= INVALID_PARAM_END {
        return InvalidField;
      }
      if selector >= OEM_START && selector <= OEM_END {
        return NotSupported;
      }
      if selector == 0 {
        r := SetProgress(data1);
        return;
      }
      if |configData| > BLOCK {
        return InvalidField;
      }
      var block := PadTo(configData, BLOCK);
      EnsureStore();
      var found := Lookup(selector, hostname);
      var text := if found == None then [] else found.value;
      if data1 == 0 {
        var stringLen := block[1];
        var count := Min(stringLen, SMALL_CHUNK);
        text := Resized(text, stringLen);
        text := Overwritten(text, 0, block[OVERHEAD..OVERHEAD + count]);
      } else {
        var offset := BLOCK * data1 as int - OVERHEAD;
        if offset >= |text| {
          return OutOfRange;
        }
        var count := Min(|text| - offset, |block|);
        text := Overwritten(text, offset, block[..count]);
      }
      params := params[selector := Captured(text)];
      return Done;
    }
  }
}
