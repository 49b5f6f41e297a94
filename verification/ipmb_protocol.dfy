/**
 * The IPMB bridge's outstanding-request protocol as a state machine. The bridge is single-threaded: a
 * request coroutine runs from one `yield` to the next without interruption, so every such stretch is one
 * event, and so is every response frame that arrives.
 */
module IpmbProtocol {
  import opened Bytes
  import opened IpmbFrame

  const MAX_OUTSTANDING := 64
  const NUMBER_OF_TRIES := 6
  const I2C_NUMBER_OF_RETRIES := 2
  const RS_LUN := 0

  datatype Outcome = Success(response: ResponseMsg) | Error | Timeout

  datatype RequestState = Invalid | Valid | Matched

  /** Where a `requestAdd` coroutine is suspended; `at` is the event that finished it. */
  datatype Phase =
    | Writing(attempt: nat, retry: nat)
    | Waiting(attempt: nat)
    | Finished(outcome: Outcome, at: nat)

  datatype Request = Request(msg: RequestMsg, state: RequestState, matched: Option<ResponseMsg>, phase: Phase)
  {
    /** The early return after a failed encoding forgets to release the slot. */
    predicate Leaked() { phase.Finished? && !msg.Encodable() }

    predicate HoldsSlot() { !phase.Finished? || Leaked() }
  }

  /** `clock` counts events; a request is named by the event that submitted it. */
  datatype State = State(clock: nat, counter: nat, slots: seq<Option<nat>>, requests: map<nat, Request>)

  datatype Event =
    | Submit(rqSA: byte, bmcSA: byte, netFn: byte, lun: byte, cmd: byte, data: seq<byte>)
    | WriteDone(id: nat, failed: bool)
    | WaitDone(id: nat, unexpectedError: bool)
    | Receive(response: ResponseMsg)
    | OtherChannelAllocates(counter: nat)   // the counter is one static variable for all channels

  // -------- sequence numbers --------

  predicate IsFree(slots: seq<Option<nat>>, i: nat) { i < |slots| && slots[i] == None }

  function Cyclic(counter: nat, steps: nat): (r: nat) { (counter + steps) % MAX_OUTSTANDING }

  /** The first free slot among `counter + tried + 1`, `counter + tried + 2`, ... up to once around. */
  function NextFree(slots: seq<Option<nat>>, counter: nat, tried: nat): (r: Option<nat>)
    requires tried <= MAX_OUTSTANDING
    ensures r.Some? ==> r.value < MAX_OUTSTANDING && IsFree(slots, r.value)
    decreases MAX_OUTSTANDING - tried, slots
  {
    if tried == MAX_OUTSTANDING then None
    else if IsFree(slots, Cyclic(counter, tried + 1)) then Some(Cyclic(counter, tried + 1))
    else NextFree(slots, counter, tried + 1)
  }

  lemma {:induction false} NextFreeMeaning(slots: seq<Option<nat>>, counter: nat, tried: nat)
    requires tried <= MAX_OUTSTANDING
    ensures NextFree(slots, counter, tried) == None
       <==> forall k | tried < k <= MAX_OUTSTANDING :: !IsFree(slots, Cyclic(counter, k))
    ensures NextFree(slots, counter, tried).Some? ==>
              exists k :: IsFirstFree(slots, counter, tried, k)
                          && NextFree(slots, counter, tried) == Some(Cyclic(counter, k))
    decreases MAX_OUTSTANDING - tried
  {
    if tried < MAX_OUTSTANDING {
      if IsFree(slots, Cyclic(counter, tried + 1)) {
        assert IsFirstFree(slots, counter, tried, tried + 1);
      } else {
        NextFreeMeaning(slots, counter, tried + 1);
        if NextFree(slots, counter, tried).Some? {
          var k :| IsFirstFree(slots, counter, tried + 1, k)
                   && NextFree(slots, counter, tried) == Some(Cyclic(counter, k));
          assert IsFirstFree(slots, counter, tried, k);
        }
      }
    }
  }

  predicate IsFirstFree(slots: seq<Option<nat>>, counter: nat, tried: nat, k: nat) {
    && tried < k <= MAX_OUTSTANDING
    && IsFree(slots, Cyclic(counter, k))
    && forall j | tried < j < k :: !IsFree(slots, Cyclic(counter, j))
  }

  /** Sixty-four increments modulo sixty-four cover every slot. */
  lemma CycleCovers(counter: nat, i: nat)
    requires i < MAX_OUTSTANDING
    ensures exists k :: 0 < k <= MAX_OUTSTANDING && Cyclic(counter, k) == i
  {
    var c := counter % MAX_OUTSTANDING;
    var k := if i > c then i - c else i - c + MAX_OUTSTANDING;
    assert Cyclic(counter, k) == i;
  }

  /** Allocation fails exactly when all slots are taken, and otherwise takes the first free one after the counter. */
  lemma AllocationIsRoundRobin(slots: seq<Option<nat>>, counter: nat)
    requires |slots| == MAX_OUTSTANDING
    ensures NextFree(slots, counter, 0) == None <==> forall i | 0 <= i < |slots| :: slots[i].Some?
    ensures NextFree(slots, counter, 0).Some? ==>
              exists k :: IsFirstFree(slots, counter, 0, k) && NextFree(slots, counter, 0) == Some(Cyclic(counter, k))
  {
    NextFreeMeaning(slots, counter, 0);
    if NextFree(slots, counter, 0) == None {
      forall i | 0 <= i < |slots| ensures slots[i].Some? {
        CycleCovers(counter, i);
        var k :| 0 < k <= MAX_OUTSTANDING && Cyclic(counter, k) == i;
        assert !IsFree(slots, Cyclic(counter, k));
      }
    } else {
      var k :| IsFirstFree(slots, counter, 0, k) && NextFree(slots, counter, 0) == Some(Cyclic(counter, k));
      assert slots[Cyclic(counter, k)] == None;
    }
  }

  // -------- steps --------

  predicate Matches(msg: RequestMsg, response: ResponseMsg) {
    && response.seqNum == msg.seqNum
    && response.netFn == RespNetFn(msg.netFn)
    && response.rqLun == msg.rqLun
    && response.rsLun == msg.rsLun
    && response.cmd == msg.cmd
  }

  /** `makeRequestInvalid` plus the return of `requestAdd`. */
  function Release(s: State, id: nat, outcome: Outcome): (r: State)
    requires id in s.requests && s.requests[id].msg.seqNum < |s.slots|
  {
    var r := s.requests[id];
    s.(slots := s.slots[r.msg.seqNum := None],
       requests := s.requests[id := r.(state := Invalid, phase := Finished(outcome, s.clock))])
  }

  function SetPhase(s: State, id: nat, phase: Phase): (r: State)
    requires id in s.requests
  {
    s.(requests := s.requests[id := s.requests[id].(phase := phase)])
  }

  function SubmitStep(s: State, e: Event): (r: State)
    requires e.Submit? && |s.slots| == MAX_OUTSTANDING
  {
    match NextFree(s.slots, s.counter, 0)
    case None => s
    case Some(seqNum) =>
      var msg := RequestMsg(e.rqSA, e.netFn, RS_LUN, e.bmcSA, seqNum, e.lun, e.cmd, e.data);
      var phase := if msg.Encodable() then Writing(0, 0) else Finished(Error, s.clock);
      s.(counter := seqNum,
         slots := s.slots[seqNum := Some(s.clock)],
         requests := s.requests[s.clock := Request(msg, Valid, None, phase)])
  }

  function WriteDoneStep(s: State, id: nat, failed: bool): (r: State)
    requires id in s.requests && s.requests[id].phase.Writing?
  {
    var p := s.requests[id].phase;
    if failed && p.retry + 1 < I2C_NUMBER_OF_RETRIES then SetPhase(s, id, Writing(p.attempt, p.retry + 1))
    else SetPhase(s, id, Waiting(p.attempt))
  }

  function WaitDoneStep(s: State, id: nat, unexpectedError: bool): (r: State)
    requires id in s.requests && s.requests[id].phase.Waiting? && s.requests[id].msg.seqNum < |s.slots|
    requires s.requests[id].state == Matched ==> s.requests[id].matched.Some?
  {
    var r := s.requests[id];
    if unexpectedError then Release(s, id, Error)
    else if r.state == Matched then Release(s, id, Success(r.matched.value))
    else if r.phase.attempt + 1 < NUMBER_OF_TRIES then SetPhase(s, id, Writing(r.phase.attempt + 1, 0))
    else Release(s, id, Timeout)
  }

  /** `responseMatch`: the slot of the response's sequence number decides whom it may belong to. */
  function ReceiveStep(s: State, response: ResponseMsg): (r: State)
    requires |s.slots| == MAX_OUTSTANDING
    requires forall i | 0 <= i < |s.slots| && s.slots[i].Some? :: s.slots[i].value in s.requests
  {
    if response.seqNum < MAX_OUTSTANDING && s.slots[response.seqNum].Some? then
      var id := s.slots[response.seqNum].value;
      var r := s.requests[id];
      if Matches(r.msg, response.(seqNum := r.msg.seqNum))
      then s.(requests := s.requests[id := r.(state := Matched, matched := Some(response))])
      else s
    else s
  }

  // -------- the invariant of every interleaving --------

  /** An occupied slot and the request it names agree with each other. */
  predicate SlotsOwned(s: State) {
    forall i | 0 <= i < |s.slots| && s.slots[i].Some? ::
      && s.slots[i].value in s.requests
      && s.requests[s.slots[i].value].msg.seqNum == i
      && s.requests[s.slots[i].value].HoldsSlot()
  }

  predicate RequestOk(s: State, id: nat)
    requires id in s.requests
  {
    var r := s.requests[id];
    && id < s.clock
    && |s.slots| == MAX_OUTSTANDING
    && r.msg.seqNum < MAX_OUTSTANDING
    && (r.HoldsSlot() ==> s.slots[r.msg.seqNum] == Some(id) && r.state != Invalid)
    && (!r.HoldsSlot() ==> r.state == Invalid)
    && (r.HoldsSlot() ==> (r.state == Matched <==> r.matched.Some?))
    && (!r.phase.Finished? ==> r.msg.Encodable() && r.phase.attempt < NUMBER_OF_TRIES)
    && (r.phase.Writing? ==> r.phase.retry < I2C_NUMBER_OF_RETRIES)
    && (r.phase.Finished? ==> r.phase.at < s.clock)
  }

  predicate Inv(s: State) {
    && |s.slots| == MAX_OUTSTANDING
    && s.counter < MAX_OUTSTANDING
    && SlotsOwned(s)
    && forall id | id in s.requests :: RequestOk(s, id)
  }

  predicate Enabled(s: State, e: Event) {
    match e
    case WriteDone(id, _) => id in s.requests && s.requests[id].phase.Writing?
    case WaitDone(id, _) => id in s.requests && s.requests[id].phase.Waiting?
    case OtherChannelAllocates(counter) => counter < MAX_OUTSTANDING
    case _ => true
  }

  function Act(s: State, e: Event): (r: State)
    requires Inv(s) && Enabled(s, e)
  {
    match e
    case Submit(_, _, _, _, _, _) => SubmitStep(s, e)
    case WriteDone(id, failed) => assert RequestOk(s, id); WriteDoneStep(s, id, failed)
    case WaitDone(id, unexpectedError) => assert RequestOk(s, id); WaitDoneStep(s, id, unexpectedError)
    case Receive(response) => ReceiveStep(s, response)
    case OtherChannelAllocates(counter) => s.(counter := counter)
  }

  function Step(s: State, e: Event): (r: State)
    requires Inv(s) && Enabled(s, e)
  {
    Act(s, e).(clock := s.clock + 1)
  }

  function NoSlots(): (slots: seq<Option<nat>>)
    ensures |slots| == MAX_OUTSTANDING && forall i | 0 <= i < |slots| :: slots[i] == None
  {
    seq(MAX_OUTSTANDING, i => None)
  }

  const INITIAL: State := State(0, 0, NoSlots(), map[])

  lemma SubmitKeepsInv(s: State, e: Event)
    requires Inv(s) && e.Submit?
    ensures Inv(Step(s, e))
  {
    var t := Step(s, e);
    AllocationIsRoundRobin(s.slots, s.counter);
    assert forall id | id in s.requests :: RequestOk(s, id) && id < s.clock;
    assert s.clock !in s.requests;
    forall id | id in t.requests ensures RequestOk(t, id) {
      assert id in s.requests ==> RequestOk(s, id);
    }
  }

  lemma ReleaseKeepsInv(s: State, id: nat, outcome: Outcome)
    requires Inv(s) && id in s.requests && !s.requests[id].phase.Finished?
    ensures RequestOk(s, id) && Inv(Release(s, id, outcome).(clock := s.clock + 1))
  {
    assert RequestOk(s, id);
    var t := Release(s, id, outcome).(clock := s.clock + 1);
    forall other | other in t.requests ensures RequestOk(t, other) {
      assert RequestOk(s, other);
    }
  }

  lemma PhaseKeepsInv(s: State, id: nat, phase: Phase)
    requires Inv(s) && id in s.requests && !s.requests[id].phase.Finished?
    requires !phase.Finished? && phase.attempt < NUMBER_OF_TRIES
    requires phase.Writing? ==> phase.retry < I2C_NUMBER_OF_RETRIES
    ensures Inv(SetPhase(s, id, phase).(clock := s.clock + 1))
  {
    var t := SetPhase(s, id, phase).(clock := s.clock + 1);
    forall other | other in t.requests ensures RequestOk(t, other) {
      assert RequestOk(s, other) && RequestOk(s, id);
    }
  }

  lemma ReceiveKeepsInv(s: State, response: ResponseMsg)
    requires Inv(s)
    ensures Inv(Step(s, Receive(response)))
  {
    var t := Step(s, Receive(response));
    forall other | other in t.requests ensures RequestOk(t, other) {
      assert RequestOk(s, other);
    }
  }

  lemma WriteDoneKeepsInv(s: State, id: nat, failed: bool)
    requires Inv(s) && Enabled(s, WriteDone(id, failed))
    ensures Inv(Step(s, WriteDone(id, failed)))
  {
    assert RequestOk(s, id);
    var p := s.requests[id].phase;
    PhaseKeepsInv(s, id, if failed && p.retry + 1 < I2C_NUMBER_OF_RETRIES then Writing(p.attempt, p.retry + 1)
        else Waiting(p.attempt));
  }

  lemma WaitDoneKeepsInv(s: State, id: nat, unexpectedError: bool)
    requires Inv(s) && Enabled(s, WaitDone(id, unexpectedError))
    ensures Inv(Step(s, WaitDone(id, unexpectedError)))
  {
    assert RequestOk(s, id);
    var r := s.requests[id];
    var t := Step(s, WaitDone(id, unexpectedError));
    if !unexpectedError && r.state != Matched && r.phase.attempt + 1 < NUMBER_OF_TRIES {
      assert t == SetPhase(s, id, Writing(r.phase.attempt + 1, 0)).(clock := s.clock + 1);
      PhaseKeepsInv(s, id, Writing(r.phase.attempt + 1, 0));
    } else {
      var outcome := if unexpectedError then Error else if r.state == Matched then Success(r.matched.value)
          else Timeout;
      assert t == Release(s, id, outcome).(clock := s.clock + 1);
      ReleaseKeepsInv(s, id, outcome);
    }
  }

  /** Slot ownership survives every event of every interleaving. */
  lemma StepKeepsInv(s: State, e: Event)
    requires Inv(s) && Enabled(s, e)
    ensures Inv(Step(s, e))
  {
    match e {
      case Submit(_, _, _, _, _, _) => SubmitKeepsInv(s, e);
      case WriteDone(id, failed) => WriteDoneKeepsInv(s, id, failed);
      case WaitDone(id, unexpectedError) => WaitDoneKeepsInv(s, id, unexpectedError);
      case Receive(response) => ReceiveKeepsInv(s, response);
      case OtherChannelAllocates(counter) =>
        var t := Step(s, e);
        forall other | other in t.requests ensures RequestOk(t, other) { assert RequestOk(s, other); }
    }
  }

  /** No two requests that hold a slot share a sequence number. */
  lemma SequenceNumbersUnique(s: State, a: nat, b: nat)
    requires Inv(s) && a in s.requests && b in s.requests && a != b
    requires s.requests[a].HoldsSlot() && s.requests[b].HoldsSlot()
    ensures s.requests[a].msg.seqNum != s.requests[b].msg.seqNum
  {
    assert RequestOk(s, a) && RequestOk(s, b);
  }

  /** What one event does to the slot table: a finishing request empties its own slot and no other, and it
      does so exactly when its data could be encoded. */
  lemma FinishingEmptiesOwnSlotOnly(s: State, e: Event, id: nat)
    requires Inv(s) && Enabled(s, e)
    requires id in Step(s, e).requests && Step(s, e).requests[id].phase.Finished?
    requires id in s.requests ==> !s.requests[id].phase.Finished?
    ensures var t := Step(s, e); var r := t.requests[id];
            && r.msg.seqNum < |t.slots| == |s.slots|
            && (t.slots[r.msg.seqNum] == None <==> |r.msg.data| <= 257)
            && (t.slots[r.msg.seqNum] == Some(id) <==> |r.msg.data| > 257)
            && forall i | 0 <= i < |s.slots| && i != r.msg.seqNum :: t.slots[i] == s.slots[i]
  {
    match e {
      case Submit(_, _, _, _, _, _) =>
        assert id in s.requests ==> RequestOk(s, id);
      case WaitDone(other, _) => assert RequestOk(s, other); assert RequestOk(s, id);
      case _ =>
    }
  }

  // -------- the interleaving seen by one request --------

  /** `requestAdd` for one request alone: what each event means to it, never mind the slot table. */
  function RequestStep(r: Request, e: Event, id: nat, now: nat): (result: Request)
    requires r.state == Matched ==> r.matched.Some?
  {
    match e
    case WriteDone(other, failed) =>
      if other != id || !r.phase.Writing? then r
      else if failed && r.phase.retry + 1 < I2C_NUMBER_OF_RETRIES
          then r.(phase := Writing(r.phase.attempt, r.phase.retry + 1))
      else r.(phase := Waiting(r.phase.attempt))
    case WaitDone(other, unexpectedError) =>
      if other != id || !r.phase.Waiting? then r
      else if unexpectedError then r.(state := Invalid, phase := Finished(Error, now))
      else if r.state == Matched then r.(state := Invalid, phase := Finished(Success(r.matched.value), now))
      else if r.phase.attempt + 1 < NUMBER_OF_TRIES then r.(phase := Writing(r.phase.attempt + 1, 0))
      else r.(state := Invalid, phase := Finished(Timeout, now))
    case Receive(response) =>
      if r.HoldsSlot() && Matches(r.msg, response) then r.(state := Matched, matched := Some(response)) else r
    case _ => r
  }

  /** Sharing the slot table is invisible: every interleaving projects to each request running on its own. */
  lemma InterleavingProjects(s: State, e: Event, id: nat)
    requires Inv(s) && Enabled(s, e) && id in s.requests
    ensures s.requests[id].state == Matched ==> s.requests[id].matched.Some?
    ensures id in Step(s, e).requests
    ensures Step(s, e).requests[id] == RequestStep(s.requests[id], e, id, s.clock)
  {
    var r := s.requests[id];
    assert RequestOk(s, id);
    match e {
      case Submit(_, _, _, _, _, _) =>
      case WriteDone(other, _) => assert RequestOk(s, other);
      case WaitDone(other, _) => assert RequestOk(s, other);
      case Receive(response) =>
        if r.HoldsSlot() && Matches(r.msg, response) {
          assert s.slots[response.seqNum] == Some(id);
        } else if response.seqNum < MAX_OUTSTANDING && s.slots[response.seqNum].Some? {
          assert RequestOk(s, s.slots[response.seqNum].value);
        }
      case OtherChannelAllocates(_) =>
    }
  }

  /** A finished coroutine is never resumed. */
  lemma FinishedStaysFinished(s: State, e: Event, id: nat)
    requires Inv(s) && Enabled(s, e) && id in s.requests && s.requests[id].phase.Finished?
    ensures id in Step(s, e).requests
    ensures Step(s, e).requests[id].phase == s.requests[id].phase && Step(s, e).requests[id].msg == s.requests[id].msg
  {
    InterleavingProjects(s, e, id);
  }

  /** A slot forgotten by the early return stays taken through every later event. */
  lemma LeakIsForever(s: State, e: Event, id: nat)
    requires Inv(s) && Enabled(s, e) && id in s.requests && s.requests[id].Leaked()
    ensures id in Step(s, e).requests && Step(s, e).requests[id].Leaked()
    ensures s.requests[id].msg.seqNum < |Step(s, e).slots|
    ensures Step(s, e).slots[s.requests[id].msg.seqNum] == Some(id)
  {
    StepKeepsInv(s, e);
    FinishedStaysFinished(s, e, id);
    assert RequestOk(Step(s, e), id);
  }
}
