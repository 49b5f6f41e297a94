/** What holds of whole runs of the IPMB bridge, stated against the event log alone. */
module IpmbRuns {
  import opened Bytes
  import opened IpmbFrame
  import opened IpmbProtocol

  /** Plays a log from the start; `None` if it resumes a coroutine that is not suspended there. */
  function Run(es: seq<Event>): (r: Option<State>)
    ensures r.Some? ==> Inv(r.value) && r.value.clock == |es|
  {
    if es == [] then Some(INITIAL) else Resume(Run(es[..|es| - 1]), es[|es| - 1])
  }

  function Resume(before: Option<State>, e: Event): (r: Option<State>)
    requires before.Some? ==> Inv(before.value)
    ensures r.Some? ==> before.Some? && Inv(r.value) && r.value.clock == before.value.clock + 1
  {
    if before.Some? && Enabled(before.value, e) then
      StepKeepsInv(before.value, e);
      Some(Step(before.value, e))
    else None
  }

  lemma RunOneMore(es: seq<Event>, e: Event, s: State)
    requires Run(es) == Some(s) && Enabled(s, e)
    ensures Run(es + [e]) == Some(Step(s, e))
  {
    assert (es + [e])[..|es|] == es;
  }

  // -------- reference notions on logs --------

  /** The last response of a log that answers `msg`. */
  function LatestMatch(es: seq<Event>, msg: RequestMsg): (r: Option<ResponseMsg>) {
    if es == [] then None
    else
      var e := es[|es| - 1];
      if e.Receive? && Matches(msg, e.response) then Some(e.response) else LatestMatch(es[..|es| - 1], msg)
  }

  predicate IsWrite(e: Event, id: nat) { e.WriteDone? && e.id == id }

  predicate IsWait(e: Event, id: nat) { e.WaitDone? && e.id == id }

  function Writes(es: seq<Event>, id: nat): (r: nat) {
    if es == [] then 0 else Writes(es[..|es| - 1], id) + if IsWrite(es[|es| - 1], id) then 1 else 0
  }

  function Waits(es: seq<Event>, id: nat): (r: nat) {
    if es == [] then 0 else Waits(es[..|es| - 1], id) + if IsWait(es[|es| - 1], id) then 1 else 0
  }

  /** Whether each write failed that was made for the request since it was submitted or last woke up. */
  function SinceWake(es: seq<Event>, id: nat): (r: seq<bool>) {
    if es == [] || IsWait(es[|es| - 1], id) then []
    else SinceWake(es[..|es| - 1], id) + if IsWrite(es[|es| - 1], id) then [es[|es| - 1].failed] else []
  }

  /** How often a request can still be resumed: the termination measure of `requestAdd`. */
  function Left(p: Phase): (r: int) {
    match p
    case Writing(attempt, retry) => 3 * (NUMBER_OF_TRIES - attempt) - retry
    case Waiting(attempt) => 3 * (NUMBER_OF_TRIES - attempt) - 2
    case Finished(_, _) => 0
  }

  /** Event `k` of the log is a response that answers `msg`. */
  predicate AnswerAt(es: seq<Event>, msg: RequestMsg, k: nat) {
    k < |es| && es[k].Receive? && Matches(msg, es[k].response)
  }

  predicate LastAnswerAt(es: seq<Event>, msg: RequestMsg, k: nat) {
    AnswerAt(es, msg, k) && forall j | k < j < |es| :: !AnswerAt(es, msg, j)
  }

  lemma {:induction false} LatestMatchMeaning(es: seq<Event>, msg: RequestMsg)
    ensures LatestMatch(es, msg) == None <==> forall k: nat :: !AnswerAt(es, msg, k)
    ensures LatestMatch(es, msg).Some? ==>
              exists k: nat :: LastAnswerAt(es, msg, k) && es[k] == Receive(LatestMatch(es, msg).value)
  {
    if es != [] {
      var n := |es| - 1;
      var init := es[..n];
      LatestMatchMeaning(init, msg);
      forall k: nat ensures AnswerAt(es, msg, k) <==> AnswerAt(init, msg, k) || (k == n && AnswerAt(es, msg, n)) {}
      if AnswerAt(es, msg, n) {
        assert LastAnswerAt(es, msg, n) && es[n] == Receive(LatestMatch(es, msg).value);
      } else if LatestMatch(es, msg).Some? {
        var k: nat :| LastAnswerAt(init, msg, k) && init[k] == Receive(LatestMatch(es, msg).value);
        assert LastAnswerAt(es, msg, k) && es[k] == Receive(LatestMatch(es, msg).value);
      }
    }
  }

  // -------- what a state says about the log that led to it --------

  predicate Submitted(es: seq<Event>, id: nat, msg: RequestMsg) {
    && id < |es| && es[id].Submit?
    && msg == RequestMsg(es[id].rqSA, es[id].netFn, RS_LUN, es[id].bmcSA, msg.seqNum, es[id].lun, es[id].cmd,
                         es[id].data)
  }

  predicate Work(es: seq<Event>, id: nat, p: Phase) {
    && Writes(es, id) + Waits(es, id) + Left(p) <= 18
    && match p
       case Writing(attempt, retry) => Writes(es, id) <= 2 * attempt + retry && Waits(es, id) == attempt
       case Waiting(attempt) => Writes(es, id) <= 2 * attempt + 2 && Waits(es, id) == attempt
       case Finished(_, _) => Writes(es, id) <= 12 && Waits(es, id) <= 6
  }

  predicate OutcomeExplained(es: seq<Event>, id: nat, msg: RequestMsg, outcome: Outcome, at: nat) {
    && id <= at < |es|
    && match outcome
       case Success(response) =>
         && id < at && es[at] == WaitDone(id, false)
         && LatestMatch(es[id + 1..at], msg) == Some(response)
       case Timeout =>
         && id < at && es[at] == WaitDone(id, false)
         && LatestMatch(es[id + 1..at], msg) == None && Waits(es, id) == NUMBER_OF_TRIES
       case Error =>
         if id == at then !msg.Encodable() else es[at] == WaitDone(id, true)
  }

  predicate Explained(es: seq<Event>, id: nat, r: Request) {
    && Submitted(es, id, r.msg)
    && Work(es, id, r.phase)
    && (r.HoldsSlot() ==> r.matched == LatestMatch(es[id + 1..], r.msg))
    && (r.phase.Finished? ==> OutcomeExplained(es, id, r.msg, r.phase.outcome, r.phase.at))
  }

  // -------- every run is explained --------

  lemma {:induction false} FreshRequestsUntouched(es: seq<Event>, id: nat)
    requires Run(es).Some? && id >= |es|
    ensures Writes(es, id) == 0 && Waits(es, id) == 0
    ensures SinceWake(es, id) == []
  {
    if es != [] {
      var init := es[..|es| - 1];
      FreshRequestsUntouched(init, id);
      var s := Run(init).value;
      assert forall k | k in s.requests :: RequestOk(s, k) && k < |init|;
    }
  }

  lemma LogGrows(es: seq<Event>, e: Event, id: nat, msg: RequestMsg)
    requires id < |es|
    ensures (es + [e])[..|es|] == es
    ensures (es + [e])[id + 1..] == es[id + 1..] + [e]
    ensures LatestMatch((es + [e])[id + 1..], msg)
         == if e.Receive? && Matches(msg, e.response) then Some(e.response) else LatestMatch(es[id + 1..], msg)
    ensures Writes(es + [e], id) == Writes(es, id) + if IsWrite(e, id) then 1 else 0
    ensures Waits(es + [e], id) == Waits(es, id) + if IsWait(e, id) then 1 else 0
  {
    assert (es + [e])[..|es|] == es;
    var tail := (es + [e])[id + 1..];
    assert tail == es[id + 1..] + [e];
    assert tail[..|tail| - 1] == es[id + 1..];
  }

  lemma OutcomeStaysExplained(es: seq<Event>, e: Event, id: nat, msg: RequestMsg, outcome: Outcome, at: nat)
    requires OutcomeExplained(es, id, msg, outcome, at) && !IsWait(e, id)
    ensures OutcomeExplained(es + [e], id, msg, outcome, at)
  {
    LogGrows(es, e, id, msg);
    assert id < at ==> (es + [e])[id + 1..at] == es[id + 1..at];
  }

  predicate PhaseOk(r: Request) {
    && (r.HoldsSlot() ==> (r.state == Matched <==> r.matched.Some?))
    && (!r.phase.Finished? ==> r.msg.Encodable() && r.phase.attempt < NUMBER_OF_TRIES)
    && (r.phase.Writing? ==> r.phase.retry < I2C_NUMBER_OF_RETRIES)
  }

  lemma RequestStaysExplained(es: seq<Event>, e: Event, r: Request, id: nat)
    requires Explained(es, id, r) && PhaseOk(r) && (r.state == Matched ==> r.matched.Some?)
    requires IsWrite(e, id) ==> r.phase.Writing?
    requires IsWait(e, id) ==> r.phase.Waiting?
    ensures Explained(es + [e], id, RequestStep(r, e, id, |es|))
  {
    LogGrows(es, e, id, r.msg);
    if r.phase.Finished? {
      OutcomeStaysExplained(es, e, id, r.msg, r.phase.outcome, r.phase.at);
    } else if IsWait(e, id) {
      assert es[id + 1..|es|] == es[id + 1..];
      assert (es + [e])[id + 1..|es|] == es[id + 1..];
    }
  }

  lemma StepStaysExplained(es: seq<Event>, e: Event, s: State, id: nat)
    requires Run(es) == Some(s) && Enabled(s, e)
    requires id in s.requests && Explained(es, id, s.requests[id])
    ensures id in Step(s, e).requests && Explained(es + [e], id, Step(s, e).requests[id])
  {
    assert RequestOk(s, id);
    InterleavingProjects(s, e, id);
    RequestStaysExplained(es, e, s.requests[id], id);
  }

  lemma SubmittedIsExplained(es: seq<Event>, e: Event, s: State)
    requires Run(es) == Some(s) && e.Submit? && s.clock in Step(s, e).requests
    ensures Explained(es + [e], s.clock, Step(s, e).requests[s.clock])
  {
    var log, id := es + [e], |es|;
    assert forall k | k in s.requests :: RequestOk(s, k);
    assert log[..|es|] == es;
    assert log[id + 1..] == [];
    FreshRequestsUntouched(es, id);
  }

  /** Every request of every run: who submitted it, how much work it did, and why it ended as it did. */
  lemma {:induction false} RunIsExplained(es: seq<Event>, id: nat)
    requires Run(es).Some? && id in Run(es).value.requests
    ensures Explained(es, id, Run(es).value.requests[id])
  {
    if es != [] {
      var init, e := es[..|es| - 1], es[|es| - 1];
      var s := Run(init).value;
      assert es == init + [e];
      if id in s.requests {
        RunIsExplained(init, id);
        StepStaysExplained(init, e, s, id);
      } else {
        SubmittedIsExplained(init, e, s);
      }
    }
  }

  // -------- main results --------

  /** Success is reported only with a response that answers the request, and with the latest such response. */
  lemma SuccessIsLatestMatch(es: seq<Event>, id: nat, response: ResponseMsg, at: nat)
    requires Run(es).Some? && id in Run(es).value.requests
    requires Run(es).value.requests[id].phase == Finished(Success(response), at)
    ensures id < at < |es| && LatestMatch(es[id + 1..at], Run(es).value.requests[id].msg) == Some(response)
    ensures Echoes(Run(es).value.requests[id].msg, response)
  {
    RunIsExplained(es, id);
    SuccessExplained(es, id, Run(es).value.requests[id], response, at);
  }

  lemma SuccessExplained(es: seq<Event>, id: nat, r: Request, response: ResponseMsg, at: nat)
    requires Explained(es, id, r) && r.phase == Finished(Success(response), at)
    ensures id < at < |es| && LatestMatch(es[id + 1..at], r.msg) == Some(response) && Matches(r.msg, response)
  {
    LatestMatchMeaning(es[id + 1..at], r.msg);
  }

  /** Where a normal wake-up leads to, depending on whether an answer has come. */
  function AfterWakeUp(answer: Option<ResponseMsg>, attempt: nat, now: nat): (r: Phase) {
    match answer
    case Some(response) => Finished(Success(response), now)
    case None => if attempt + 1 < NUMBER_OF_TRIES then Writing(attempt + 1, 0) else Finished(Timeout, now)
  }

  /** A match processed at any point since submission, also during a write, decides the next normal wake-up;
      without one the request is sent again, or times out on the sixth wake-up. */
  lemma MatchIsNeverLost(es: seq<Event>, s: State, id: nat)
    requires Run(es) == Some(s) && id in s.requests && s.requests[id].phase.Waiting?
    ensures id < |es| && id in Step(s, WaitDone(id, false)).requests
    ensures Step(s, WaitDone(id, false)).requests[id].phase
         == AfterWakeUp(LatestMatch(es[id + 1..], s.requests[id].msg), s.requests[id].phase.attempt, s.clock)
  {
    NextWakeUp(es, s, id);
    InterleavingProjects(s, WaitDone(id, false), id);
  }

  /** Sequence number, network function with the response bit, both logical units and command are those asked for. */
  predicate Echoes(msg: RequestMsg, response: ResponseMsg) {
    && response.seqNum == msg.seqNum && response.cmd == msg.cmd
    && response.netFn as int == (if msg.netFn % 2 == 0 then msg.netFn as int + 1 else msg.netFn as int)
    && response.rqLun == msg.rqLun && response.rsLun == msg.rsLun
  }

  /** While a request waits, the last response since its submission that echoes it is the one it will succeed with. */
  lemma LastEchoDecides(es: seq<Event>, s: State, id: nat, k: nat)
    requires Run(es) == Some(s) && id in s.requests && s.requests[id].phase.Waiting?
    requires id < k < |es| && es[k].Receive? && Echoes(s.requests[id].msg, es[k].response)
    requires forall j | k < j < |es| && es[j].Receive? :: !Echoes(s.requests[id].msg, es[j].response)
    ensures id in Step(s, WaitDone(id, false)).requests
    ensures Step(s, WaitDone(id, false)).requests[id].phase == Finished(Success(es[k].response), s.clock)
  {
    var msg := s.requests[id].msg;
    MatchIsNeverLost(es, s, id);
    LatestMatchMeaning(es[id + 1..], msg);
    LastEchoIsLatest(es, id, msg, k);
  }

  lemma LastEchoIsLatest(es: seq<Event>, id: nat, msg: RequestMsg, k: nat)
    requires id < k < |es| && es[k].Receive? && Echoes(msg, es[k].response)
    requires forall j | k < j < |es| && es[j].Receive? :: !Echoes(msg, es[j].response)
    ensures LatestMatch(es[id + 1..], msg) == Some(es[k].response)
  {
    var tail, at := es[id + 1..], k - id - 1;
    LatestMatchMeaning(tail, msg);
    assert tail[at] == es[k] && AnswerAt(tail, msg, at);
    var last: nat :| LastAnswerAt(tail, msg, last) && tail[last] == Receive(LatestMatch(tail, msg).value);
    assert tail[last] == es[id + 1 + last];
  }

  lemma NextWakeUp(es: seq<Event>, s: State, id: nat)
    requires Run(es) == Some(s) && id in s.requests && s.requests[id].phase.Waiting?
    ensures id < |es| == s.clock && (s.requests[id].state == Matched ==> s.requests[id].matched.Some?)
    ensures RequestStep(s.requests[id], WaitDone(id, false), id, s.clock).phase
         == AfterWakeUp(LatestMatch(es[id + 1..], s.requests[id].msg), s.requests[id].phase.attempt, s.clock)
  {
    assert RequestOk(s, id);
    RunIsExplained(es, id);
    WakeUp(es, s.requests[id], id);
  }

  lemma WakeUp(es: seq<Event>, r: Request, id: nat)
    requires Explained(es, id, r) && PhaseOk(r) && r.phase.Waiting?
    ensures RequestStep(r, WaitDone(id, false), id, |es|).phase
         == AfterWakeUp(LatestMatch(es[id + 1..], r.msg), r.phase.attempt, |es|)
  {}

  /** A timeout means six waits and no answer since submission. */
  lemma TimeoutMeansSixUnansweredWaits(es: seq<Event>, id: nat, at: nat)
    requires Run(es).Some? && id in Run(es).value.requests
    requires Run(es).value.requests[id].phase == Finished(Timeout, at)
    ensures Waits(es, id) == 6 && id < at < |es|
    ensures forall k: nat | id < k < at :: !AnswerAt(es, Run(es).value.requests[id].msg, k)
  {
    RunIsExplained(es, id);
    TimeoutExplained(es, id, Run(es).value.requests[id], at);
  }

  lemma TimeoutExplained(es: seq<Event>, id: nat, r: Request, at: nat)
    requires Explained(es, id, r) && r.phase == Finished(Timeout, at)
    ensures Waits(es, id) == 6 && id < at < |es|
    ensures forall k: nat | id < k < at :: !AnswerAt(es, r.msg, k)
  {
    NoAnswerBetween(es, r.msg, id + 1, at);
  }

  lemma NoAnswerBetween(es: seq<Event>, msg: RequestMsg, from: nat, to: nat)
    requires from <= to <= |es| && LatestMatch(es[from..to], msg) == None
    ensures forall k: nat | from <= k < to :: !AnswerAt(es, msg, k)
  {
    LatestMatchMeaning(es[from..to], msg);
    forall k: nat | from <= k < to ensures !AnswerAt(es, msg, k) {
      assert !AnswerAt(es[from..to], msg, k - from);
    }
  }

  /** At most twelve writes and six waits, and every resumption uses up some of the measure. */
  lemma RequestTerminates(es: seq<Event>, id: nat)
    requires Run(es).Some? && id in Run(es).value.requests
    ensures Writes(es, id) <= 12 && Waits(es, id) <= 6
    ensures Writes(es, id) + Waits(es, id) + Left(Run(es).value.requests[id].phase) <= 18
    ensures Left(Run(es).value.requests[id].phase) <= 0 <==> Run(es).value.requests[id].phase.Finished?
  {
    RunIsExplained(es, id);
    assert RequestOk(Run(es).value, id);
  }

  /** A failed write is repeated once, a successful one never. */
  predicate Retried(since: seq<bool>, p: Phase) {
    match p
    case Writing(_, retry) => since == if retry == 0 then [] else [true]
    case Waiting(_) => since == [false] || since == [true, false] || since == [true, true]
    case Finished(_, _) => true
  }

  function Since(since: seq<bool>, e: Event, id: nat): (r: seq<bool>) {
    if IsWait(e, id) then [] else since + if IsWrite(e, id) then [e.failed] else []
  }

  lemma StaysRetried(since: seq<bool>, e: Event, r: Request, id: nat, now: nat)
    requires Retried(since, r.phase) && PhaseOk(r) && (r.state == Matched ==> r.matched.Some?)
    requires IsWrite(e, id) ==> r.phase.Writing?
    requires IsWait(e, id) ==> r.phase.Waiting?
    ensures Retried(Since(since, e, id), RequestStep(r, e, id, now).phase)
  {
    if IsWrite(e, id) {
      assert [] + [e.failed] == [e.failed] && [true] + [e.failed] == [true, e.failed];
    }
  }

  lemma {:induction false} RunRetries(es: seq<Event>, id: nat)
    requires Run(es).Some? && id in Run(es).value.requests
    ensures Retried(SinceWake(es, id), Run(es).value.requests[id].phase)
  {
    if es != [] {
      var init, e := es[..|es| - 1], es[|es| - 1];
      var s := Run(init).value;
      if id in s.requests {
        RunRetries(init, id);
        assert RequestOk(s, id);
        InterleavingProjects(s, e, id);
        RunIsExplained(init, id);
        StaysRetried(SinceWake(init, id), e, s.requests[id], id, s.clock);
      } else {
        FreshRequestsUntouched(init, id);
      }
    }
  }

  /** In every run, a request is about to write exactly if since its last wake-up none of its writes has succeeded and
      at most one has failed; it waits exactly if one has succeeded, or two have failed. */
  lemma WaitsExactlyAfterWriteOrTwoFailures(es: seq<Event>, id: nat)
    requires Run(es).Some? && id in Run(es).value.requests && !Run(es).value.requests[id].phase.Finished?
    ensures Run(es).value.requests[id].phase.Writing? <==> SinceWake(es, id) == [] || SinceWake(es, id) == [true]
    ensures Run(es).value.requests[id].phase.Waiting? <==>
              || SinceWake(es, id) == [false]
              || SinceWake(es, id) == [true, false]
              || SinceWake(es, id) == [true, true]
  {
    RunRetries(es, id);
  }

  /** Every occupied slot of every run belongs to one in-flight request, or to one whose encoding failed. */
  lemma SlotsOwnedInEveryRun(es: seq<Event>, i: nat)
    requires Run(es).Some? && i < MAX_OUTSTANDING
    ensures |Run(es).value.slots| == MAX_OUTSTANDING
    ensures var s := Run(es).value;
            match s.slots[i]
            case None => forall id | id in s.requests && s.requests[id].HoldsSlot() :: s.requests[id].msg.seqNum != i
            case Some(id) =>
              && id in s.requests
              && s.requests[id].msg.seqNum == i && s.requests[id].state in {Valid, Matched}
              && (s.requests[id].phase.Finished? <==> |s.requests[id].msg.data| > 257)
              && forall other | other in s.requests && s.requests[other].HoldsSlot() && other != id ::
                   s.requests[other].msg.seqNum != i
  {
    var s := Run(es).value;
    forall id | id in s.requests ensures RequestOk(s, id) {}
  }

  /** `n` oversized requests after one another. */
  function Oversized(n: nat, data: seq<byte>): (r: seq<Event>) {
    if n == 0 then [] else Oversized(n - 1, data) + [Submit(0x20, 0x20, 6, 0, 1, data)]
  }

  predicate FirstTaken(slots: seq<Option<nat>>, n: nat) {
    && |slots| == MAX_OUTSTANDING
    && forall i | 0 <= i < |slots| :: slots[i].Some? <==> (1 <= i <= n || (i == 0 && n == 64))
  }

  predicate Leaking(r: Option<State>, n: nat) {
    && r.Some? && Inv(r.value) && FirstTaken(r.value.slots, n)
    && r.value.counter == (if n == MAX_OUTSTANDING then 0 else n)
  }

  lemma SubmitTakesNext(s: State, e: Event, next: nat)
    requires Inv(s) && e.Submit? && NextFree(s.slots, s.counter, 0) == Some(next)
    ensures Inv(Step(s, e)) && Step(s, e).counter == next && Step(s, e).slots == s.slots[next := Some(s.clock)]
  {
    StepKeepsInv(s, e);
  }

  lemma NextIsFree(slots: seq<Option<nat>>, n: nat, next: nat)
    requires n < MAX_OUTSTANDING && FirstTaken(slots, n) && next == if n == 63 then 0 else n + 1
    ensures NextFree(slots, n, 0) == Some(next)
    ensures forall id :: FirstTaken(slots[next := Some(id)], n + 1)
  {
    assert Cyclic(n, 1) == next;
    assert IsFree(slots, Cyclic(n, 1));
  }

  lemma OneMoreLeak(s: State, n: nat, e: Event)
    requires Leaking(Some(s), n) && n < MAX_OUTSTANDING
    requires e.Submit? && |e.data| > 257
    ensures Leaking(Some(Step(s, e)), n + 1)
  {
    var next := if n == 63 then 0 else n + 1;
    NextIsFree(s.slots, n, next);
    SubmitTakesNext(s, e, next);
  }

  lemma {:induction false} OversizedFillTheTable(n: nat, data: seq<byte>)
    requires n <= MAX_OUTSTANDING && |data| > 257
    ensures Leaking(Run(Oversized(n, data)), n)
  {
    if n > 0 {
      OversizedFillTheTable(n - 1, data);
      var s := Run(Oversized(n - 1, data)).value;
      var e := Submit(0x20, 0x20, 6, 0, 1, data);
      OneMoreLeak(s, n - 1, e);
      RunOneMore(Oversized(n - 1, data), e, s);
      assert Oversized(n, data) == Oversized(n - 1, data) + [e];
    }
  }

  /** The price of the leak: after sixty-four oversized requests the channel refuses every further one. */
  lemma SixtyFourLeaksBlockTheChannel(data: seq<byte>, e: Event)
    requires |data| > 257 && e.Submit?
    ensures Run(Oversized(64, data)).Some?
    ensures var s := Run(Oversized(64, data)).value; Step(s, e) == s.(clock := s.clock + 1)
  {
    OversizedFillTheTable(64, data);
    var s := Run(Oversized(64, data)).value;
    AllocationIsRoundRobin(s.slots, s.counter);
  }

  // -------- when refusal is final --------

  /** Continues from a state; `None` if an event cannot happen there. */
  function Continued(s: State, es: seq<Event>): (r: Option<State>)
    requires Inv(s)
    ensures r.Some? ==> Inv(r.value)
    decreases |es|
  {
    if es == [] then Some(s)
    else if !Enabled(s, es[0]) then None
    else
      StepKeepsInv(s, es[0]);
      Continued(Step(s, es[0]), es[1..])
  }

  predicate Refuses(s: State) { NextFree(s.slots, s.counter, 0) == None }

  ghost predicate RefusesForever(s: State)
    requires Inv(s)
  {
    forall es | Continued(s, es).Some? :: Refuses(Continued(s, es).value)
  }

  predicate SlotLeaked(s: State, i: nat) {
    i < |s.slots| && s.slots[i].Some? && s.slots[i].value in s.requests && s.requests[s.slots[i].value].Leaked()
  }

  predicate AllLeaked(s: State) { forall i | 0 <= i < MAX_OUTSTANDING :: SlotLeaked(s, i) }

  lemma AllLeakedStays(s: State, e: Event)
    requires Inv(s) && Enabled(s, e) && AllLeaked(s)
    ensures AllLeaked(Step(s, e))
  {
    forall i | 0 <= i < MAX_OUTSTANDING ensures SlotLeaked(Step(s, e), i) {
      assert SlotLeaked(s, i);
      LeakIsForever(s, e, s.slots[i].value);
    }
  }

  lemma {:induction false} AllLeakedRefuses(s: State, es: seq<Event>)
    requires Inv(s) && AllLeaked(s) && Continued(s, es).Some?
    ensures Refuses(Continued(s, es).value)
    decreases |es|
  {
    if es == [] {
      AllocationIsRoundRobin(s.slots, s.counter);
      forall i | 0 <= i < |s.slots| ensures s.slots[i].Some? { assert SlotLeaked(s, i); }
    } else {
      StepKeepsInv(s, es[0]);
      AllLeakedStays(s, es[0]);
      AllLeakedRefuses(Step(s, es[0]), es[1..]);
    }
  }

  /** A slot that is not leaked can still become free: its request's timer may fail. */
  lemma UnleakedCanBeFreed(s: State, i: nat) returns (es: seq<Event>)
    requires Inv(s) && i < MAX_OUTSTANDING && !SlotLeaked(s, i)
    ensures Continued(s, es).Some? && i < |Continued(s, es).value.slots| && Continued(s, es).value.slots[i] == None
  {
    if s.slots[i] == None {
      return [];
    }
    var id := s.slots[i].value;
    assert RequestOk(s, id);
    if s.requests[id].phase.Waiting? {
      TimerFailureFrees(s, id);
      es := [WaitDone(id, true)] + [];
      ContinuedStep(s, WaitDone(id, true), []);
    } else {
      var t := Step(s, WriteDone(id, false));
      StepKeepsInv(s, WriteDone(id, false));
      assert t.requests[id].phase.Waiting? && t.requests[id].msg == s.requests[id].msg;
      TimerFailureFrees(t, id);
      es := [WriteDone(id, false)] + ([WaitDone(id, true)] + []);
      ContinuedStep(t, WaitDone(id, true), []);
      ContinuedStep(s, WriteDone(id, false), [WaitDone(id, true)] + []);
    }
  }

  lemma ContinuedStep(s: State, e: Event, es: seq<Event>)
    requires Inv(s) && Enabled(s, e)
    ensures Inv(Step(s, e)) && Continued(s, [e] + es) == Continued(Step(s, e), es)
  {
    StepKeepsInv(s, e);
    assert ([e] + es)[1..] == es;
  }

  lemma TimerFailureFrees(s: State, id: nat)
    requires Inv(s) && id in s.requests && s.requests[id].phase.Waiting?
    ensures var t := Step(s, WaitDone(id, true)); var i := s.requests[id].msg.seqNum;
            Inv(t) && i < |t.slots| && t.slots[i] == None
  {
    assert RequestOk(s, id);
    StepKeepsInv(s, WaitDone(id, true));
  }

  /** In every reachable state: the channel refuses every request from now on exactly if all slots are leaked. */
  lemma RefusedForeverExactlyIfAllLeaked(s: State)
    requires Inv(s)
    ensures RefusesForever(s) <==> AllLeaked(s)
  {
    if AllLeaked(s) {
      forall es | Continued(s, es).Some? ensures Refuses(Continued(s, es).value) { AllLeakedRefuses(s, es); }
    } else {
      var i :| 0 <= i < MAX_OUTSTANDING && !SlotLeaked(s, i);
      var es := UnleakedCanBeFreed(s, i);
      var t := Continued(s, es).value;
      AllocationIsRoundRobin(t.slots, t.counter);
      assert !Refuses(t);
    }
  }

  // -------- answers that come off the bus --------

  /** Every response of the log was decoded from a frame. */
  ghost predicate OffTheBus(es: seq<Event>) {
    forall k | 0 <= k < |es| && es[k].Receive? :: IsDecoded(es[k].response)
  }

  ghost predicate IsDecoded(response: ResponseMsg) {
    exists frame: seq<byte> :: |frame| >= 8 && response == DecodedResponse(frame, response.address)
  }

  /** A frame that the receiver takes for a response and that answers the request. */
  ghost predicate Answers(frame: seq<byte>, msg: RequestMsg) {
    |frame| >= 8 && FrameValid(frame) && IsResponse(frame) && Matches(msg, DecodedResponse(frame, 0))
  }

  lemma DecodedFits(frame: seq<byte>, address: byte)
    requires |frame| >= 8
    ensures DecodedResponse(frame, address).FitsHeader()
  {}

  lemma OnlyFittingMatch(msg: RequestMsg, response: ResponseMsg)
    requires response.FitsHeader() && Matches(msg, response)
    ensures msg.FitsHeader()
  {}

  lemma OddOfTruncated(m: ResponseMsg)
    ensures m.Truncated().netFn % 2 == m.netFn % 2
  {}

  lemma AnswersIfMatches(frame: seq<byte>, msg: RequestMsg, m: ResponseMsg)
    requires |frame| >= 8 && DecodedResponse(frame, m.address) == m && (IsResponse(frame) <==> m.netFn % 2 == 1)
    ensures Answers(frame, msg) <==> Matches(msg, m) && FrameValid(frame)
  {
    assert DecodedResponse(frame, 0) == m.(address := 0);
  }

  /** An encoded response is taken for a request's answer exactly if it matches, as far as the header has room for its
      fields, and the validator accepts it: up to 251 data bytes, or by luck of its first bytes. */
  lemma WellFormedAnswerMatches(msg: RequestMsg, m: ResponseMsg)
    requires m.Encodable()
    ensures Answers(ResponseFrame(m), msg)
       <==> Matches(msg, m.Truncated()) && (|m.data| <= 251 || ZeroSum(m.Body()[..|m.data| - 251]))
  {
    ResponseFrameAccepted(m);
    ResponseRoundTrip(m);
    ResponseRecognised(m);
    OddOfTruncated(m);
    AnswersIfMatches(ResponseFrame(m), msg, m.Truncated());
  }

  lemma ShortAnswer(msg: RequestMsg) returns (m: ResponseMsg)
    requires msg.FitsHeader()
    ensures m.Encodable() && m.data == [] && Matches(msg, m.Truncated())
  {
    m := ResponseMsg(0, RespNetFn(msg.netFn), msg.rqLun, msg.address, msg.seqNum, msg.rsLun, msg.cmd, 0, []);
    assert m.Truncated() == m;
  }

  /** Some frame answers a request exactly if its fields fit the header. */
  lemma AnswerableExactlyIfFits(msg: RequestMsg)
    ensures (exists frame :: Answers(frame, msg)) <==> msg.FitsHeader()
  {
    if msg.FitsHeader() {
      var m := ShortAnswer(msg);
      WellFormedAnswerMatches(msg, m);
    } else {
      forall frame | Answers(frame, msg) ensures false {
        DecodedFits(frame, 0);
        OnlyFittingMatch(msg, DecodedResponse(frame, 0));
      }
    }
  }

  /** So in every run off the bus only requests whose fields fit the header ever succeed. */
  lemma OnlyFittingRequestsSucceed(es: seq<Event>, id: nat, response: ResponseMsg, at: nat)
    requires Run(es).Some? && OffTheBus(es) && id in Run(es).value.requests
    requires Run(es).value.requests[id].phase == Finished(Success(response), at)
    ensures Run(es).value.requests[id].msg.FitsHeader()
  {
    var msg := Run(es).value.requests[id].msg;
    SuccessIsLatestMatch(es, id, response, at);
    LatestMatchMeaning(es[id + 1..at], msg);
    var k :| 0 <= k < |es[id + 1..at]| && es[id + 1..at][k] == Receive(response);
    assert es[id + 1 + k] == Receive(response);
    var frame: seq<byte> :| |frame| >= 8 && response == DecodedResponse(frame, response.address);
    DecodedFits(frame, response.address);
    OnlyFittingMatch(msg, response);
  }
}
