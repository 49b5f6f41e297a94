/** The host command manager: a queue, one timer, and callbacks that must fire exactly once. */
module HostCommands {
  import opened Bytes

  const CMD_HEARTBEAT: byte := 0xFF

  /** `tag` tells commands with equal bytes apart. */
  datatype Command = Command(cmd: byte, data: byte, tag: nat)

  /** One invocation of a command's callback. */
  datatype Completion = Completion(command: Command, success: bool)

  /** `completed` is the log of callback invocations. */
  datatype State = State(queue: seq<Command>, armed: bool, submitted: seq<Command>, completed: seq<Completion>)

  /** The environment decides whether starting and stopping the timer succeeds. */
  datatype Event =
    | Execute(command: Command, startOk: bool)
    | Read(stopOk: bool, startOk: bool)
    | TimerExpires
    | HostTransition(requestsOn: bool)

  const INITIAL := State([], false, [], [])

  predicate Enabled(s: State, e: Event) { e.TimerExpires? ==> s.armed }

  function Failed(queue: seq<Command>): (r: seq<Completion>)
    ensures |r| == |queue| && forall i | 0 <= i < |r| :: r[i] == Completion(queue[i], false)
  {
    seq(|queue|, i requires 0 <= i < |queue| => Completion(queue[i], false))
  }

  /** `clearQueue`. */
  function Cleared(s: State): (r: State) {
    s.(queue := [], completed := s.completed + Failed(s.queue))
  }

  /** `checkQueueAndAlertHost`. */
  function Alerted(s: State, startOk: bool): (r: State) {
    if s.queue != [] && startOk then s.(armed := true) else s
  }

  function Step(s: State, e: Event): (r: State)
    requires Enabled(s, e)
  {
    match e
    case Execute(command, startOk) =>
      var t := s.(queue := s.queue + [command], submitted := s.submitted + [command]);
      if s.queue == [] then Alerted(t, startOk) else t
    case Read(stopOk, startOk) =>
      var t := s.(armed := s.armed && !stopOk);
      if s.queue == [] then t
      else Alerted(t.(queue := s.queue[1..], completed := s.completed + [Completion(s.queue[0], true)]), startOk)
    case TimerExpires => Cleared(s.(armed := false))
    case HostTransition(requestsOn) => if requestsOn then Cleared(s) else s
  }

  function Run(es: seq<Event>): (r: Option<State>) {
    if es == [] then Some(INITIAL)
    else
      match Run(es[..|es| - 1])
      case None => None
      case Some(s) => if Enabled(s, es[|es| - 1]) then Some(Step(s, es[|es| - 1])) else None
  }

  function Commands(completed: seq<Completion>): (r: seq<Command>)
    ensures |r| == |completed| && forall i | 0 <= i < |r| :: r[i] == completed[i].command
  {
    seq(|completed|, i requires 0 <= i < |completed| => completed[i].command)
  }

  predicate Inv(s: State) { s.submitted == Commands(s.completed) + s.queue }

  lemma {:induction false} RunKeepsInv(es: seq<Event>)
    requires Run(es).Some?
    ensures Inv(Run(es).value)
  {
    if es != [] {
      RunKeepsInv(es[..|es| - 1]);
      StepKeepsInv(Run(es[..|es| - 1]).value, es[|es| - 1]);
    }
  }

  lemma CommandsAppend(a: seq<Completion>, b: seq<Completion>)
    ensures Commands(a + b) == Commands(a) + Commands(b)
  {}

  lemma ClearKeepsInv(s: State)
    requires Inv(s)
    ensures Inv(Cleared(s))
  {
    CommandsAppend(s.completed, Failed(s.queue));
    assert Commands(Failed(s.queue)) == s.queue;
  }

  lemma StepKeepsInv(s: State, e: Event)
    requires Inv(s) && Enabled(s, e)
    ensures Inv(Step(s, e))
  {
    if e.Read? && s.queue != [] {
      var done := [Completion(s.queue[0], true)];
      CommandsAppend(s.completed, done);
      assert Commands(done) == [s.queue[0]];
      assert s.queue == [s.queue[0]] + s.queue[1..];
    } else if e.TimerExpires? {
      assert Commands(s.completed + Failed(s.queue)) == Commands(s.completed) + s.queue;
    } else if e.HostTransition? {
      ClearKeepsInv(s);
    }
  }

  /** Submitted commands are the completed ones, in order, followed by the queue: none is lost, none completes
      twice, none overtakes another. */
  lemma ConservedInOrder(es: seq<Event>)
    requires Run(es).Some?
    ensures Run(es).value.submitted == Commands(Run(es).value.completed) + Run(es).value.queue
  {
    RunKeepsInv(es);
  }

  lemma CompletionsOnlyGrow(s: State, e: Event)
    requires Enabled(s, e)
    ensures s.completed <= Step(s, e).completed
  {}

  /** The event at which completion `k` was logged. */
  predicate CompletedAt(es: seq<Event>, k: nat, i: nat) {
    && i < |es| && Run(es[..i]).Some? && Run(es[..i + 1]).Some?
    && |Run(es[..i]).value.completed| <= k < |Run(es[..i + 1]).value.completed|
  }

  /** Each callback fires at one event of the run, with success exactly if that event is the host's read. */
  lemma {:induction false} CallbackTellsHowItEnded(es: seq<Event>, k: nat)
    requires Run(es).Some? && k < |Run(es).value.completed|
    ensures exists i: nat :: CompletedAt(es, k, i) && (Run(es).value.completed[k].success <==> es[i].Read?)
    ensures k < |Run(es).value.submitted| && Run(es).value.completed[k].command == Run(es).value.submitted[k]
  {
    RunKeepsInv(es);
    var n := |es| - 1;
    var init := es[..n];
    var s := Run(init).value;
    CompletionsOnlyGrow(s, es[n]);
    if k < |s.completed| {
      CallbackTellsHowItEnded(init, k);
      var i: nat :| CompletedAt(init, k, i) && (s.completed[k].success <==> init[i].Read?);
      assert es[..i] == init[..i] && es[..i + 1] == init[..i + 1];
      assert CompletedAt(es, k, i);
    } else {
      assert es[..n + 1] == es;
      assert CompletedAt(es, k, n);
    }
  }

  /** No other event can have fired the same callback. */
  lemma FiredOnce(es: seq<Event>, k: nat, i: nat, j: nat)
    requires Run(es).Some? && CompletedAt(es, k, i) && CompletedAt(es, k, j)
    ensures i == j
  {
    if i < j { GrowsAlong(es, i + 1, j); }
    if j < i { GrowsAlong(es, j + 1, i); }
  }

  lemma {:induction false} GrowsAlong(es: seq<Event>, i: nat, j: nat)
    requires i <= j <= |es| && Run(es[..j]).Some?
    ensures Run(es[..i]).Some? && Run(es[..i]).value.completed <= Run(es[..j]).value.completed
    decreases j - i
  {
    if i < j {
      assert es[..j][..j - 1] == es[..j - 1];
      GrowsAlong(es, i, j - 1);
      CompletionsOnlyGrow(Run(es[..j - 1]).value, es[j - 1]);
    }
  }

  // -------- what an event does to those that wait --------

  /** `fired` are the callbacks of these commands, in order, each told the same. */
  ghost predicate AllTold(fired: seq<Completion>, commands: seq<Command>, success: bool) {
    |fired| == |commands|
    && forall i | 0 <= i < |fired| :: fired[i].command == commands[i] && fired[i].success == success
  }

  /** A power-on or the timer's expiry, at the end of any run, fails everything that waits, in order, whether or not the
      timer runs; a power-on leaves the timer as it is. */
  lemma PurgeFailsAll(es: seq<Event>) returns (fired: seq<Completion>)
    requires es != [] && Run(es).Some? && (es[|es| - 1] == HostTransition(true) || es[|es| - 1] == TimerExpires)
    ensures var before, after := Run(es[..|es| - 1]).value, Run(es).value;
            && after.queue == [] && after.submitted == before.submitted
            && after.completed == before.completed + fired && AllTold(fired, before.queue, false)
            && (after.armed <==> before.armed && es[|es| - 1].HostTransition?)
  {
    fired := Failed(Run(es[..|es| - 1]).value.queue);
  }

  /** Any other event fires the callback of the first command, with success, if it is a read, and else none; a
      transition to another state changes nothing. */
  lemma OthersFireAtMostOne(es: seq<Event>) returns (fired: seq<Completion>)
    requires es != [] && Run(es).Some? && es[|es| - 1] != HostTransition(true) && es[|es| - 1] != TimerExpires
    ensures var before, after, e := Run(es[..|es| - 1]).value, Run(es).value, es[|es| - 1];
            && after.completed == before.completed + fired
            && AllTold(fired, if e.Read? && before.queue != [] then [before.queue[0]] else [], true)
            && after.submitted == before.submitted + (if e.Execute? then [e.command] else [])
            && Commands(fired) + after.queue == before.queue + (if e.Execute? then [e.command] else [])
            && (e == HostTransition(false) ==> after == before)
  {
    var before, e := Run(es[..|es| - 1]).value, es[|es| - 1];
    fired := if e.Read? && before.queue != [] then [Completion(before.queue[0], true)] else [];
  }

  /** A submission to an empty queue starts the timer, and so does a read that leaves something waiting. */
  predicate StartsTimer(s: State, e: Event) {
    (e.Execute? && s.queue == [] && e.startOk) || (e.Read? && |s.queue| >= 2 && e.startOk)
  }

  predicate StopsTimer(e: Event) { e.TimerExpires? || (e.Read? && e.stopOk) }

  /** After every event of every run the timer runs exactly if it was started, or ran and was not stopped. */
  lemma TimerRunsExactlyIf(es: seq<Event>)
    requires es != [] && Run(es).Some?
    ensures var before, e := Run(es[..|es| - 1]).value, es[|es| - 1];
            Run(es).value.armed <==> StartsTimer(before, e) || (before.armed && !StopsTimer(e))
  {}

  // -------- stranded commands --------

  /** Something waits and nothing will ever make it complete by itself. */
  predicate Stranded(s: State) { s.queue != [] && !s.armed }

  /** The event has to start the timer for a waiting command, cannot, and leaves none running. */
  predicate AlertFails(s: State, e: Event) {
    match e
    case Execute(_, startOk) => s.queue == [] && !startOk && !s.armed
    case Read(stopOk, startOk) => |s.queue| >= 2 && !startOk && (stopOk || !s.armed)
    case _ => false
  }

  lemma StrandedExactlyIfAlertFails(s: State, e: Event)
    requires Enabled(s, e) && !Stranded(s)
    ensures Stranded(Step(s, e)) <==> AlertFails(s, e)
  {}

  /** Once stranded, commands wait on exactly until the host reads and a new timer starts or nothing is left, or
      until a power-on purges them; further commands do not help. */
  lemma StrandedExactlyUntilReadOrPurge(s: State, e: Event)
    requires Enabled(s, e) && Stranded(s)
    ensures !Stranded(Step(s, e)) <==> (e.Read? && (e.startOk || |s.queue| == 1)) || e == HostTransition(true)
  {}

  predicate StrandedBefore(es: seq<Event>, i: nat)
    requires i <= |es|
  {
    Run(es[..i]).Some? && Stranded(Run(es[..i]).value)
  }

  predicate AlertFailsAt(es: seq<Event>, i: nat)
    requires i < |es|
  {
    Run(es[..i]).Some? && AlertFails(Run(es[..i]).value, es[i])
  }

  /** In every run: no command is ever stranded exactly if no alert ever fails. */
  lemma {:induction false} NeverStrandedExactlyIfNoAlertFails(es: seq<Event>)
    requires Run(es).Some?
    ensures (forall i | 0 <= i <= |es| :: !StrandedBefore(es, i))
        <==> (forall i | 0 <= i < |es| :: !AlertFailsAt(es, i))
  {
    if es == [] {
      assert es[..0] == [];
    } else {
      var n := |es| - 1;
      var init := es[..n];
      NeverStrandedExactlyIfNoAlertFails(init);
      forall i: nat | i <= n ensures StrandedBefore(es, i) == StrandedBefore(init, i) { assert es[..i] == init[..i]; }
      forall i: nat | i < n ensures AlertFailsAt(es, i) == AlertFailsAt(init, i) { assert es[..i] == init[..i]; }
      assert es[..|es|] == es && init[..n] == init && es[..n] == init;
      assert StrandedBefore(init, n) == StrandedBefore(es, n) == Stranded(Run(init).value);
      assert StrandedBefore(es, n + 1) == Stranded(Run(es).value);
      assert AlertFailsAt(es, n) == AlertFails(Run(init).value, es[n]);
      assert (forall i | 0 <= i <= n :: !StrandedBefore(es, i))
          <==> (forall i | 0 <= i <= n :: !StrandedBefore(init, i));
      assert (forall i | 0 <= i < n :: !AlertFailsAt(es, i)) <==> (forall i | 0 <= i < n :: !AlertFailsAt(init, i));
      if !Stranded(Run(init).value) {
        StrandedExactlyIfAlertFails(Run(init).value, es[n]);
      }
    }
  }

  /** Where a run has not stranded its commands, the timer's expiry completes all of them, also after a purge that
      left the timer running. */
  lemma NoCommandStranded(es: seq<Event>)
    requires Run(es).Some? && Run(es).value.queue != []
    requires forall i | 0 <= i < |es| :: !AlertFailsAt(es, i)
    ensures Run(es).value.armed && Enabled(Run(es).value, TimerExpires)
    ensures var t := Step(Run(es).value, TimerExpires); t.queue == [] && t.submitted == Commands(t.completed)
  {
    NeverStrandedExactlyIfNoAlertFails(es);
    assert es[..|es|] == es;
    assert !StrandedBefore(es, |es|);
    RunKeepsInv(es);
    StepKeepsInv(Run(es).value, TimerExpires);
  }

  /** `n` reads by the host. */
  function Reads(s: State, n: nat): (r: State)
    decreases n
  {
    if n == 0 then s else Reads(Step(s, Read(true, true)), n - 1)
  }

  function Succeeded(queue: seq<Command>): (r: seq<Completion>)
    ensures |r| == |queue| && forall i | 0 <= i < |r| :: r[i] == Completion(queue[i], true)
  {
    seq(|queue|, i requires 0 <= i < |queue| => Completion(queue[i], true))
  }

  /** A host that reads often enough gets every queued command, first in first out, and each succeeds. */
  lemma {:induction false} HostDrainsQueue(s: State)
    ensures Reads(s, |s.queue|).queue == []
    ensures Reads(s, |s.queue|).completed == s.completed + Succeeded(s.queue)
    decreases |s.queue|
  {
    if s.queue != [] {
      var t := Step(s, Read(true, true));
      HostDrainsQueue(t);
      assert s.completed + Succeeded(s.queue) == t.completed + Succeeded(t.queue);
    }
  }

  lemma OneFailure(done: seq<Completion>, queue: seq<Command>)
    requires queue != []
    ensures done + Failed(queue) == done + [Completion(queue[0], false)] + Failed(queue[1..])
  {}

  // -------- the manager object --------

  class Manager {
    var workQueue: seq<Command>
    var timerRunning: bool
    ghost var submitted: seq<Command>
    ghost var completed: seq<Completion>

    ghost function Abs(): (r: State)
      reads this
    {
      State(workQueue, timerRunning, submitted, completed)
    }

    constructor ()
      ensures Abs() == INITIAL
    {
      workQueue, timerRunning := [], false;
      submitted, completed := [], [];
    }

    /** Calls a command's callback. */
    method Callback(command: Command, success: bool)
      modifies this`completed
      ensures completed == old(completed) + [Completion(command, success)]
    {
      completed := completed + [Completion(command, success)];
    }

    method CheckQueueAndAlertHost(startOk: bool)
      modifies this`timerRunning
      ensures Abs() == Alerted(old(Abs()), startOk)
    {
      if |workQueue| >= 1 {
        if !startOk {
          return;
        }
        timerRunning := true;
      }
    }

    method GetNextCommand(stopOk: bool, startOk: bool) returns (cmd: byte, data: byte)
      modifies this
      ensures Abs() == Step(old(Abs()), Read(stopOk, startOk))
      ensures (cmd, data) == if old(workQueue) == [] then (CMD_HEARTBEAT, 0)
                             else (old(workQueue)[0].cmd, old(workQueue)[0].data)
    {
      if stopOk {
        timerRunning := false;
      }
      if workQueue == [] {
        return CMD_HEARTBEAT, 0;
      }
      var command := workQueue[0];
      workQueue := workQueue[1..];
      Callback(command, true);
      CheckQueueAndAlertHost(startOk);
      return command.cmd, command.data;
    }

    method ClearQueue()
      modifies this`workQueue, this`completed
      ensures Abs() == Cleared(old(Abs()))
    {
      while workQueue != []
        invariant completed + Failed(workQueue) == old(completed) + Failed(old(workQueue))
        decreases |workQueue|
      {
        var command := workQueue[0];
        OneFailure(completed, workQueue);
        workQueue := workQueue[1..];
        Callback(command, false);
      }
    }

    /** The timer has run out, so it no longer runs. */
    method HostTimeout()
      requires timerRunning
      modifies this`workQueue, this`completed, this`timerRunning
      ensures Abs() == Step(old(Abs()), TimerExpires)
    {
      timerRunning := false;
      ClearQueue();
    }

    method Execute(command: Command, startOk: bool)
      modifies this
      ensures Abs() == Step(old(Abs()), Event.Execute(command, startOk))
    {
      workQueue := workQueue + [command];
      submitted := submitted + [command];
      if |workQueue| == 1 {
        CheckQueueAndAlertHost(startOk);
      }
    }

    method ClearQueueOnPowerOn(hasTransition: bool, transitionIsOn: bool)
      modifies this`workQueue, this`completed
      ensures Abs() == Step(old(Abs()), HostTransition(hasTransition && transitionIsOn))
    {
      if !hasTransition {
        return;
      }
      if transitionIsOn {
        ClearQueue();
      }
    }
  }
}
