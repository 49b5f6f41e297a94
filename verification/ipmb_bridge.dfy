/** The IPMB channel object itself, updated in place, and its refinement of the protocol's events. */
module IpmbBridge {
  import opened Bytes
  import opened IpmbFrame
  import opened IpmbProtocol

  /** A request while it is outstanding, with the locals of its suspended `requestAdd`. */
  class OutstandingRequest {
    const id: nat
    const msg: RequestMsg
    var state: RequestState
    var matchedResponse: Option<ResponseMsg>
    var phase: Phase

    constructor (id: nat, msg: RequestMsg)
      ensures this.id == id && this.msg == msg && state == Invalid && matchedResponse == None
      ensures phase == Writing(0, 0)
    {
      this.id, this.msg := id, msg;
      state, matchedResponse, phase := Invalid, None, Writing(0, 0);
    }

    function Value(): (r: Request)
      reads this
    {
      Request(msg, state, matchedResponse, phase)
    }
  }

  ghost function IdOf(r: OutstandingRequest?): (result: Option<nat>) {
    if r == null then None else Some(r.id)
  }

  lemma CyclicSuccessor(counter: nat, i: nat)
    ensures (Cyclic(counter, i) + 1) % MAX_OUTSTANDING == Cyclic(counter, i + 1)
    ensures counter < MAX_OUTSTANDING ==> Cyclic(counter, 0) == counter == Cyclic(counter, MAX_OUTSTANDING)
  {}

  class IpmbChannel {
    const outstandingRequests: array<OutstandingRequest?>
    var seqNum: nat
    const bmcSlaveAddress: byte
    var rqSlaveAddress: byte
    var clock: nat   // events so far; it only names requests
    ghost var requests: map<nat, OutstandingRequest>

    ghost function SlotTable(): (slots: seq<Option<nat>>)
      reads outstandingRequests
      ensures |slots| == outstandingRequests.Length
      ensures forall i | 0 <= i < |slots| :: slots[i] == IdOf(outstandingRequests[i])
    {
      seq(outstandingRequests.Length, i requires 0 <= i < outstandingRequests.Length reads outstandingRequests =>
        IdOf(outstandingRequests[i]))
    }

    ghost function RequestTable(): (r: map<nat, Request>)
      reads this`requests, requests.Values
    {
      map id | id in requests :: requests[id].Value()
    }

    ghost function Abs(): (r: State)
      reads this, outstandingRequests, requests.Values
    {
      State(clock, seqNum, SlotTable(), RequestTable())
    }

    /** Ids and objects name each other. */
    ghost predicate Linked()
      reads this`requests, outstandingRequests
    {
      && (forall id | id in requests :: requests[id].id == id)
      && forall i | 0 <= i < outstandingRequests.Length && outstandingRequests[i] != null ::
           outstandingRequests[i].id in requests && requests[outstandingRequests[i].id] == outstandingRequests[i]
    }

    ghost predicate Valid()
      reads this, outstandingRequests, requests.Values
    {
      Linked() && Inv(Abs())
    }

    constructor (bmcSlaveAddress: byte, rqSlaveAddress: byte)
      ensures Valid() && Abs() == INITIAL && fresh(outstandingRequests)
    {
      outstandingRequests := new OutstandingRequest?[64](_ => null);
      seqNum, clock, requests := 0, 0, map[];
      this.bmcSlaveAddress, this.rqSlaveAddress := bmcSlaveAddress, rqSlaveAddress;
    }

    method MakeRequestValid(request: OutstandingRequest)
      requires request.msg.seqNum < outstandingRequests.Length
      modifies request, outstandingRequests
      ensures request.Value() == old(request.Value()).(state := RequestState.Valid)
      ensures outstandingRequests[..] == old(outstandingRequests[..])[request.msg.seqNum := request]
    {
      request.state := RequestState.Valid;
      outstandingRequests[request.msg.seqNum] := request;
    }

    method MakeRequestInvalid(request: OutstandingRequest)
      requires request.msg.seqNum < outstandingRequests.Length
      modifies request`state, outstandingRequests
      ensures request.Value() == old(request.Value()).(state := RequestState.Invalid)
      ensures outstandingRequests[..] == old(outstandingRequests[..])[request.msg.seqNum := null]
    {
      request.state := RequestState.Invalid;
      outstandingRequests[request.msg.seqNum] := null;
    }

    /** `seqNumGet`: up to sixty-four increments of the counter. */
    method SeqNumGet() returns (found: bool, seqNumber: nat)
      requires outstandingRequests.Length == MAX_OUTSTANDING && seqNum < MAX_OUTSTANDING
      modifies this`seqNum
      ensures found <==> NextFree(SlotTable(), old(seqNum), 0).Some?
      ensures found ==> NextFree(SlotTable(), old(seqNum), 0) == Some(seqNumber) && seqNum == seqNumber
      ensures !found ==> seqNum == old(seqNum)
    {
      CyclicSuccessor(seqNum, 0);
      for i := 0 to MAX_OUTSTANDING
        invariant seqNum == Cyclic(old(seqNum), i)
        invariant NextFree(SlotTable(), old(seqNum), 0) == NextFree(SlotTable(), old(seqNum), i)
      {
        seqNum := (seqNum + 1) % MAX_OUTSTANDING;
        CyclicSuccessor(old(seqNum), i);
        if outstandingRequests[seqNum] == null {
          return true, seqNum;
        }
      }
      return false, 0;
    }

    /** `requestAdd` up to its first `yield`, or to the early return that keeps the slot. */
    method RequestAdd(request: OutstandingRequest)
      requires Linked() && request.msg.seqNum < outstandingRequests.Length
      requires request.id == clock && clock !in requests && request !in requests.Values
      requires request.matchedResponse == None && request.phase == Writing(0, 0)
      modifies this`clock, this`requests, request, outstandingRequests
      ensures Linked() && clock == old(clock) + 1 && requests == old(requests)[old(clock) := request]
      ensures SlotTable() == old(SlotTable())[request.msg.seqNum := Some(old(clock))]
      ensures RequestTable() == old(RequestTable())[old(clock) := Request(request.msg, RequestState.Valid, None,
                if request.msg.Encodable() then Writing(0, 0) else Finished(Error, old(clock)))]
    {
      ghost var before := RequestTable();
      Encode(request);
      assert RequestTable() == before by {
        assert forall id | id in requests :: requests[id] != request;
      }
      Name(request);
    }

    /** Takes the slot, and gives up for good if the frame is too long. */
    method Encode(request: OutstandingRequest)
      requires request.msg.seqNum < outstandingRequests.Length && request.phase == Writing(0, 0)
      modifies request, outstandingRequests
      ensures outstandingRequests[..] == old(outstandingRequests[..])[request.msg.seqNum := request]
      ensures request.Value() == old(request.Value()).(state := RequestState.Valid,
                phase := if request.msg.Encodable() then Writing(0, 0) else Finished(Error, clock))
    {
      MakeRequestValid(request);
      var codec := new IpmbRequest(request.msg);
      var status, buffer := codec.IpmbToI2cConstruct();
      if status != 0 {
        request.phase := Finished(Error, clock);
      }
    }

    /** The event that submitted a request names it. */
    method Name(request: OutstandingRequest)
      requires request.id == clock && clock !in requests
      modifies this`clock, this`requests
      ensures clock == old(clock) + 1 && requests == old(requests)[old(clock) := request]
      ensures SlotTable() == old(SlotTable())
      ensures RequestTable() == old(RequestTable())[old(clock) := request.Value()]
    {
      ghost var before := RequestTable();
      requests := requests[clock := request];
      clock := clock + 1;
      assert forall id | id in before :: id != old(clock) && requests[id] == old(requests[id]);
      OneRequestChanged(request, before);
    }

    method Tick()
      modifies this`clock
      ensures clock == old(clock) + 1
      ensures SlotTable() == old(SlotTable()) && RequestTable() == old(RequestTable())
      ensures Linked() == old(Linked())
    {
      clock := clock + 1;
    }

    lemma ClockNamesNobody()
      requires Valid()
      ensures clock !in requests
    {
      assert forall id | id in Abs().requests :: RequestOk(Abs(), id) && id < clock;
      assert Abs().requests.Keys == requests.Keys;
    }

    /** The requester address follows the caller, except for 40h. */
    method UpdateRqSlaveAddress(addr: byte)
      modifies this`rqSlaveAddress
      ensures rqSlaveAddress == if addr == 0x40 then old(rqSlaveAddress) else addr
      ensures Abs() == old(Abs()) && Linked() == old(Linked())
    {
      if rqSlaveAddress != addr {
        if addr != 0x40 {
          rqSlaveAddress := addr;
        }
      }
    }

    /** The part of `ipmbHandleRequest` behind the address update. */
    method Admit(netFn: byte, lun: byte, cmd: byte, data: seq<byte>) returns (busy: bool, request: OutstandingRequest?)
      requires Linked() && outstandingRequests.Length == MAX_OUTSTANDING && seqNum < MAX_OUTSTANDING
      requires clock !in requests
      modifies this`clock, this`seqNum, this`requests, outstandingRequests
      ensures Linked() && fresh(requests.Values - old(requests.Values))
      ensures var e := Submit(rqSlaveAddress, bmcSlaveAddress, netFn, lun, cmd, data);
              Abs() == SubmitStep(old(Abs()), e).(clock := old(clock) + 1)
      ensures busy <==> NextFree(old(SlotTable()), old(seqNum), 0) == None
      ensures !busy ==> request != null && old(clock) in requests && requests[old(clock)] == request
    {
      ghost var slots, table := SlotTable(), RequestTable();
      var found, number := SeqNumGet();
      if !found {
        Tick();
        return true, null;
      }
      var msg := RequestMsg(rqSlaveAddress, netFn, RS_LUN, bmcSlaveAddress, number, lun, cmd, data);
      request := new OutstandingRequest(clock, msg);
      assert SlotTable() == slots && RequestTable() == table;
      RequestAdd(request);
      busy := false;
    }

    /** `ipmbHandleRequest` up to its first `yield`; `busy` is its answer when no sequence number is free. */
    method HandleRequest(addr: byte, netFn: byte, lun: byte, cmd: byte, data: seq<byte>)
      returns (busy: bool, request: OutstandingRequest?)
      requires Valid()
      modifies this, outstandingRequests
      ensures Valid() && fresh(requests.Values - old(requests.Values))
      ensures rqSlaveAddress == if addr == 0x40 then old(rqSlaveAddress) else addr
      ensures Abs() == Step(old(Abs()), Submit(rqSlaveAddress, bmcSlaveAddress, netFn, lun, cmd, data))
      ensures busy <==> NextFree(old(SlotTable()), old(seqNum), 0) == None
      ensures !busy ==> request != null && old(clock) in requests && requests[old(clock)] == request
    {
      ghost var before := Abs();
      ClockNamesNobody();
      UpdateRqSlaveAddress(addr);
      StepKeepsInv(before, Submit(rqSlaveAddress, bmcSlaveAddress, netFn, lun, cmd, data));
      busy, request := Admit(netFn, lun, cmd, data);
    }

    ghost predicate Suspended(request: OutstandingRequest)
      reads this, requests.Values
    {
      request.id in requests && requests[request.id] == request
    }

    /** One request is new, or its fields changed: the abstract map changes at its key only. */
    lemma OneRequestChanged(request: OutstandingRequest, before: map<nat, Request>)
      requires Suspended(request)
      requires before.Keys + {request.id} == requests.Keys
      requires forall id | id in requests && id != request.id :: before[id] == requests[id].Value()
      ensures RequestTable() == before[request.id := request.Value()]
    {}

    /** The code of `requestAdd` behind the completion of a write, up to its next `yield`. */
    method AfterWrite(request: OutstandingRequest, failed: bool)
      requires Linked() && Suspended(request) && request.phase.Writing?
      modifies request`phase
      ensures Linked() && Abs() == WriteDoneStep(old(Abs()), request.id, failed)
    {
      ghost var before := RequestTable();
      ghost var slots := SlotTable();
      if failed && request.phase.retry + 1 < I2C_NUMBER_OF_RETRIES {
        request.phase := Writing(request.phase.attempt, request.phase.retry + 1);
      } else {
        request.phase := Waiting(request.phase.attempt);
      }
      OneRequestChanged(request, before);
      assert SlotTable() == slots;
    }

    /** `requestAdd` from the completion of a write to its next `yield`. */
    method ResumeAfterWrite(request: OutstandingRequest, failed: bool)
      requires Valid() && Suspended(request) && request.phase.Writing?
      modifies this`clock, request`phase
      ensures Valid() && Abs() == Step(old(Abs()), WriteDone(request.id, failed))
    {
      ghost var after := AfterEvent(request, WriteDone(request.id, failed));
      AfterWrite(request, failed);
      Tick();
      assert Abs() == after;
    }

    /** The common exit of `requestAdd`: give up the slot, then answer the caller. */
    method Return(request: OutstandingRequest, outcome: Outcome)
      requires Linked() && Suspended(request) && request.msg.seqNum < outstandingRequests.Length
      modifies request`phase, request`state, outstandingRequests
      ensures Linked() && Abs() == Release(old(Abs()), request.id, outcome)
    {
      ghost var before := RequestTable();
      ghost var slots := SlotTable();
      MakeRequestInvalid(request);
      request.phase := Finished(outcome, clock);
      OneRequestChanged(request, before);
      assert SlotTable() == slots[request.msg.seqNum := None];
    }

    /** The code of `requestAdd` behind a wake-up of its timer, up to its next `yield` or its return. */
    method AfterWait(request: OutstandingRequest, unexpectedError: bool)
      requires Linked() && Suspended(request) && request.phase.Waiting?
      requires request.msg.seqNum < outstandingRequests.Length
      requires request.state == Matched ==> request.matchedResponse.Some?
      modifies request`phase, request`state, outstandingRequests
      ensures Linked() && Abs() == WaitDoneStep(old(Abs()), request.id, unexpectedError)
    {
      ghost var before := RequestTable();
      if unexpectedError {
        Return(request, Error);
      } else if request.state == Matched {
        Return(request, Success(request.matchedResponse.value));
      } else if request.phase.attempt + 1 < NUMBER_OF_TRIES {
        request.phase := Writing(request.phase.attempt + 1, 0);
        OneRequestChanged(request, before);
      } else {
        Return(request, Timeout);
      }
    }

    method ResumeAfterWait(request: OutstandingRequest, unexpectedError: bool)
      requires Valid() && Suspended(request) && request.phase.Waiting?
      modifies this`clock, request`phase, request`state, outstandingRequests
      ensures Valid() && Abs() == Step(old(Abs()), WaitDone(request.id, unexpectedError))
    {
      ghost var before := Abs();
      ghost var after := AfterEvent(request, WaitDone(request.id, unexpectedError));
      AfterWait(request, unexpectedError);
      Tick();
      assert Abs() == after;
    }

    /** What the protocol says about resuming a suspended request. */
    ghost function AfterEvent(request: OutstandingRequest, e: Event): (after: State)
      requires Valid() && Suspended(request) && Enabled(Abs(), e)
      reads this, outstandingRequests, requests.Values
      ensures after == Step(Abs(), e) && Inv(after)
      ensures Abs().requests[request.id] == request.Value()
      ensures request.msg.seqNum < outstandingRequests.Length
      ensures request.phase.Waiting? && request.state == Matched ==> request.matchedResponse.Some?
    {
      StepKeepsInv(Abs(), e);
      assert RequestOk(Abs(), request.id);
      Step(Abs(), e)
    }

    /** `responseMatch`, as far as it goes in the slot of the response's sequence number. */
    method Match(request: OutstandingRequest, response: ResponseMsg)
      requires Linked() && Suspended(request)
      modifies request`state, request`matchedResponse
      ensures Linked() && SlotTable() == old(SlotTable())
      ensures RequestTable() ==
                if Matches(request.msg, response.(seqNum := request.msg.seqNum))
                then old(RequestTable())[
                       request.id := old(request.Value()).(state := Matched, matched := Some(response))]
                else old(RequestTable())
    {
      ghost var before := RequestTable();
      if && RespNetFn(request.msg.netFn) == response.netFn
         && request.msg.rqLun == response.rqLun
         && request.msg.rsLun == response.rsLun
         && request.msg.cmd == response.cmd
      {
        request.state := Matched;
        request.matchedResponse := Some(response);
      }
      OneRequestChanged(request, before);
    }

    /** A response concerns nobody but the request in the slot it names. */
    method ResponseMatch(response: ResponseMsg)
      requires Valid() && response.seqNum < MAX_OUTSTANDING
      modifies this`clock, outstandingRequests[response.seqNum]
      ensures Valid() && Abs() == Step(old(Abs()), Receive(response))
    {
      StepKeepsInv(Abs(), Receive(response));
      ghost var after := Step(Abs(), Receive(response));
      var request := outstandingRequests[response.seqNum];
      assert SlotTable()[response.seqNum] == IdOf(request);
      if request != null {
        Match(request, response);
      }
      Tick();
      assert Abs() == after;
    }
  }

  /** What a valid response frame comes to. */
  method ReceiveResponse(channel: IpmbChannel, buffer: array<byte>, r: nat)
    requires channel.Valid() && 8 <= r < buffer.Length
    modifies channel`clock, channel.requests.Values
    ensures channel.Valid()
    ensures channel.Abs() == Step(old(channel.Abs()), Receive(DecodedResponse(buffer[1..1 + r], 0)))
  {
    var received := new IpmbResponse(ResponseMsg(0, 0, 0, 0, 0, 0, 0, 0, []));
    received.I2cToIpmbConstruct(buffer, r);
    var response := received.Msg();
    assert response == DecodedResponse(buffer[1..1 + r], 0);
    channel.ResponseMatch(response);
  }

  /** `processI2cEvent` as far as responses go: frames that fail a check, and requests, match nothing. */
  method ProcessI2cEvent(channel: IpmbChannel, buffer: array<byte>, r: nat)
    requires channel.Valid() && buffer.Length == MAX_FRAME_LENGTH && r < buffer.Length
    requires r == MIN_FRAME_LENGTH ==> !IsResponse(buffer[1..1 + r])
    modifies channel`clock, channel.requests.Values
    ensures channel.Valid()
    ensures var frame := buffer[1..1 + r];
            channel.Abs() ==
              if r >= MIN_FRAME_LENGTH && FrameValid(frame) && IsResponse(frame)
              then Step(old(channel.Abs()), Receive(DecodedResponse(frame, 0)))
              else old(channel.Abs())
  {
    if r < MIN_FRAME_LENGTH {
      return;
    }
    var valid := IsFrameValid(buffer, r);
    if !valid {
      return;
    }
    if (buffer[2] / 4) % 2 == NETFN_RESPONSE_MASK {
      ReceiveResponse(channel, buffer, r);
    }
  }
}
