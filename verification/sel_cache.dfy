/**
 * The SEL cache as a signal-driven copy of an external log. The log changes whenever it likes; it announces its
 * changes by signals, except for those of an entry's associations. Signals wait in one queue, and a handler that
 * runs reads the log as it is then, if the bus answers.
 */
module SelCache {
  import opened Bytes
  import opened SelRecord

  /** A log entry either converts to a SEL record or makes `parseLoggingEntry` give up. */
  datatype LogEntry = Convertible(record: Record) | Opaque

  datatype Kind = Added | Removed | Updated

  datatype Signal = Signal(kind: Kind, id: word)

  /** `scan` holds the paths that a running `initSELCache` has yet to read. */
  datatype State = State(log: map<word, LogEntry>, cache: map<word, Record>, pending: seq<Signal>,
                         registered: bool, initialized: bool, scan: Option<seq<word>>)

  datatype Event =
    | LogAdd(id: word, entry: LogEntry)
    | LogUpdate(id: word, entry: LogEntry)      // of the Entry interface: PropertiesChanged is heard
    | LogAssociate(id: word, entry: LogEntry)   // of its associations, which convert to the sensor: it is not
    | LogDelete(id: word)
    | ScanBegin(paths: seq<word>)
    | ScanFail
    | ScanNext(answered: bool)
    | ScanEnd
    | Deliver(answered: bool)

  /** What the log has to say about an id to somebody who must convert it. */
  function View(log: map<word, LogEntry>, id: word): (r: Option<Record>) {
    if id in log && log[id].Convertible? then Some(log[id].record) else None
  }

  // -------- handlers, one key at a time --------

  function Inserted(c: Option<Record>, v: Option<Record>): (r: Option<Record>) {
    if c == None then v else c
  }

  /** The three callbacks: `insert`, `erase` and `insert_or_assign`. */
  function Handled(c: Option<Record>, v: Option<Record>, kind: Kind): (r: Option<Record>) {
    match kind
    case Added => Inserted(c, v)
    case Removed => None
    case Updated => if v.Some? then v else c
  }

  function Store(cache: map<word, Record>, id: word, c: Option<Record>): (r: map<word, Record>) {
    match c
    case Some(record) => cache[id := record]
    case None => cache - {id}
  }

  // -------- steps --------

  predicate Enabled(s: State, e: Event) {
    match e
    case LogAdd(id, _) => id !in s.log
    case LogUpdate(id, _) => id in s.log
    case LogAssociate(id, _) => id in s.log
    case LogDelete(id) => id in s.log
    case ScanBegin(paths) => !s.initialized && s.scan == None && forall id: word :: id in paths <==> id in s.log
    case ScanFail => !s.initialized && s.scan == None
    case ScanNext(_) => s.scan.Some? && s.scan.value != []
    case ScanEnd => s.scan == Some([])
    case Deliver(_) => s.scan == None && s.pending != []
  }

  /** Signals are queued only once the matches are registered. */
  function Announced(s: State, kind: Kind, id: word): (r: seq<Signal>) {
    if s.registered then s.pending + [Signal(kind, id)] else s.pending
  }

  /** What a reader gets: nothing if a bus call fails, for every exception is taken for an unconvertible entry. */
  function Read(log: map<word, LogEntry>, id: word, answered: bool): (r: Option<Record>) {
    if answered then View(log, id) else None
  }

  function Step(s: State, e: Event): (r: State)
    requires Enabled(s, e)
  {
    match e
    case LogAdd(id, entry) => s.(log := s.log[id := entry], pending := Announced(s, Added, id))
    case LogUpdate(id, entry) => s.(log := s.log[id := entry], pending := Announced(s, Updated, id))
    case LogAssociate(id, entry) => s.(log := s.log[id := entry])
    case LogDelete(id) => s.(log := s.log - {id}, pending := Announced(s, Removed, id))
    case ScanBegin(paths) => s.(registered := true, scan := Some(paths))
    case ScanFail => s.(registered := true)
    case ScanNext(answered) =>
      var id := s.scan.value[0];
      s.(cache := Store(s.cache, id, Inserted(Look(s.cache, id), Read(s.log, id, answered))),
         scan := Some(s.scan.value[1..]))
    case ScanEnd => s.(initialized := true, scan := None)
    case Deliver(answered) =>
      var g := s.pending[0];
      s.(cache := Store(s.cache, g.id, Handled(Look(s.cache, g.id), Read(s.log, g.id, answered), g.kind)),
         pending := s.pending[1..])
  }

  const INITIAL := State(map[], map[], [], false, false, None)

  /** Plays a log of events; `None` if one of them cannot happen there. */
  function Run(es: seq<Event>): (r: Option<State>) {
    if es == [] then Some(INITIAL)
    else
      match Run(es[..|es| - 1])
      case None => None
      case Some(s) => if Enabled(s, es[|es| - 1]) then Some(Step(s, es[|es| - 1])) else None
  }

  // -------- what the queue will do to one key --------

  function KindsOf(pending: seq<Signal>, id: word): (r: seq<Kind>) {
    if pending == [] then []
    else KindsOf(pending[..|pending| - 1], id)
         + if pending[|pending| - 1].id == id then [pending[|pending| - 1].kind] else []
  }

  /** The cached value after the queued signals are handled, were the log to stay as it is. */
  function Drained(c: Option<Record>, v: Option<Record>, kinds: seq<Kind>): (r: Option<Record>) {
    if kinds == [] then c
    else Handled(Drained(c, v, kinds[..|kinds| - 1]), v, kinds[|kinds| - 1])
  }

  predicate Settled(s: State, id: word) { s.initialized || (s.scan.Some? && id !in s.scan.value) }

  /** On its way: the queue as it stands ends at the log's record or, before the scan has passed, at none. */
  predicate OnItsWay(c: Option<Record>, v: Option<Record>, kinds: seq<Kind>, settled: bool) {
    Drained(c, v, kinds) == v || (!settled && Drained(c, v, kinds) == None)
  }

  predicate KeyOnItsWay(s: State, id: word) {
    OnItsWay(Look(s.cache, id), View(s.log, id), KindsOf(s.pending, id), Settled(s, id))
  }

  ghost predicate AllOnTheirWay(s: State) { forall id: word :: KeyOnItsWay(s, id) }

  // -------- what is true of every run --------

  /** The last signal about an id tells whether the log has it; unless it starts after an announcement, nothing does. */
  predicate KindsTell(kinds: seq<Kind>, present: bool) {
    kinds != [] ==> (kinds[|kinds| - 1] == Removed <==> !present)
  }

  ghost predicate Shape(s: State) {
    && (!s.registered ==> s.cache == map[] && s.pending == [] && !s.initialized && s.scan == None)
    && (s.initialized ==> s.scan == None)
    && forall id: word :: KindsTell(KindsOf(s.pending, id), id in s.log)
  }

  lemma KindsOneMore(pending: seq<Signal>, g: Signal, id: word)
    ensures KindsOf(pending + [g], id) == KindsOf(pending, id) + if g.id == id then [g.kind] else []
  {
    assert (pending + [g])[..|pending|] == pending;
  }

  lemma {:induction false} KindsOneLess(pending: seq<Signal>, id: word)
    requires pending != []
    ensures KindsOf(pending, id) == (if pending[0].id == id then [pending[0].kind] else []) + KindsOf(pending[1..], id)
  {
    var n := |pending| - 1;
    if n > 0 {
      KindsOneLess(pending[..n], id);
      assert pending[1..][..n - 1] == pending[..n][1..];
      assert pending[1..][n - 1] == pending[n];
    } else {
      assert pending[..0] == [] && pending[1..] == [];
    }
  }

  lemma DeliveredKey(s: State, answered: bool, id: word)
    requires Enabled(s, Deliver(answered))
    ensures var t, g, kinds := Step(s, Deliver(answered)), s.pending[0], KindsOf(s.pending, id);
            if g.id == id
            then kinds != [] && kinds[0] == g.kind && KindsOf(t.pending, id) == kinds[1..]
                 && Look(t.cache, id) == Handled(Look(s.cache, id), Read(s.log, id, answered), g.kind)
            else KindsOf(t.pending, id) == kinds && Look(t.cache, id) == Look(s.cache, id)
  {
    KindsOneLess(s.pending, id);
    var kinds, rest := KindsOf(s.pending, id), KindsOf(s.pending[1..], id);
    if s.pending[0].id == id {
      assert kinds == [s.pending[0].kind] + rest;
      assert kinds[1..] == rest;
    } else {
      assert kinds == rest;
    }
  }

  lemma StepKeepsShape(s: State, e: Event)
    requires Shape(s) && Enabled(s, e)
    ensures Shape(Step(s, e))
  {
    var t := Step(s, e);
    forall id: word ensures KindsTell(KindsOf(t.pending, id), id in t.log) {
      assert KindsTell(KindsOf(s.pending, id), id in s.log);
      match e {
        case LogAdd(_, _) => KindsOneMore(s.pending, Signal(Added, e.id), id);
        case LogUpdate(_, _) => KindsOneMore(s.pending, Signal(Updated, e.id), id);
        case LogDelete(_) => KindsOneMore(s.pending, Signal(Removed, e.id), id);
        case Deliver(answered) => DeliveredKey(s, answered, id);
        case _ =>
      }
    }
  }

  lemma {:induction false} RunKeepsShape(es: seq<Event>)
    requires Run(es).Some?
    ensures Shape(Run(es).value)
  {
    if es != [] {
      RunKeepsShape(es[..|es| - 1]);
      StepKeepsShape(Run(es[..|es| - 1]).value, es[|es| - 1]);
    }
  }

  // -------- what draining comes to --------

  /** The queue makes a handler store the log's record, whatever is cached now: behind a removal, by an update, or
      into an empty place. */
  predicate WillStore(c: Option<Record>, kinds: seq<Kind>) {
    Removed in kinds || Updated in kinds || (c == None && kinds != [])
  }

  /** What the queue comes to: without a record in the log, an empty place or what is cached; with one, the log's
      record if a handler will store it, else what is cached; for an id that is gone, an empty place. */
  predicate ComesTo(d: Option<Record>, c: Option<Record>, v: Option<Record>, kinds: seq<Kind>) {
    && (v == None ==> d == if Removed in kinds then None else c)
    && (v.Some? && KindsTell(kinds, true) ==> d == if WillStore(c, kinds) then v else c)
    && (KindsTell(kinds, false) && kinds != [] ==> d == None)
  }

  lemma {:induction false} DrainedTo(c: Option<Record>, v: Option<Record>, kinds: seq<Kind>)
    ensures ComesTo(Drained(c, v, kinds), c, v, kinds)
  {
    if kinds != [] {
      var n := |kinds| - 1;
      DrainedTo(c, v, kinds[..n]);
      LastHandled(c, v, kinds[..n], kinds[n], Drained(c, v, kinds[..n]));
      assert kinds == kinds[..n] + [kinds[n]];
    }
  }

  lemma LastHandled(c: Option<Record>, v: Option<Record>, init: seq<Kind>, last: Kind, d: Option<Record>)
    requires ComesTo(d, c, v, init)
    ensures ComesTo(Handled(d, v, last), c, v, init + [last])
  {
    var kinds := init + [last];
    assert last in kinds && (Removed in init ==> Removed in kinds) && (Updated in init ==> Updated in kinds);
    assert last != Removed && Removed in kinds ==> Removed in init;
    assert last != Updated && Updated in kinds ==> Updated in init;
    assert init != [] ==> init[|init| - 1] in init;
  }

  lemma {:induction false} DrainedFromFront(c: Option<Record>, v: Option<Record>, kinds: seq<Kind>)
    requires kinds != []
    ensures Drained(c, v, kinds) == Drained(Handled(c, v, kinds[0]), v, kinds[1..])
  {
    if |kinds| > 1 {
      var init := kinds[..|kinds| - 1];
      DrainedFromFront(c, v, init);
      assert init[1..] == kinds[1..][..|kinds| - 2];
    } else {
      assert kinds[..0] == [] && kinds[1..] == [];
    }
  }

  // -------- what loses an entry --------

  /** A record of the id is cached and no removal of it is queued. */
  predicate Stuck(s: State, id: word) { id in s.cache && Removed !in KindsOf(s.pending, id) }

  /** The signals that are left for an id when the first one of the queue is taken off. */
  function KindsLeft(s: State, id: word): (r: seq<Kind>)
    requires s.pending != []
  {
    KindsOf(s.pending[1..], id)
  }

  /** What the handlers cannot make up for: a cached entry stops being convertible; an association changes its record
      and no queued signal will make a handler read it; the one read that was due fails. */
  predicate Loses(s: State, e: Event)
    requires Enabled(s, e)
  {
    match e
    case LogUpdate(id, entry) => entry.Opaque? && Stuck(s, id)
    case LogAssociate(id, entry) =>
      if entry.Opaque? then Stuck(s, id)
      else
        && entry != s.log[id] && (id in s.cache || Settled(s, id))
        && !WillStore(Look(s.cache, id), KindsOf(s.pending, id))
    case ScanNext(answered) =>
      var id := s.scan.value[0];
      && !answered && id in s.log && s.log[id].Convertible?
      && id !in s.cache && KindsOf(s.pending, id) == [] && id !in s.scan.value[1..]
    case Deliver(answered) =>
      var id := s.pending[0].id;
      && !answered && s.pending[0].kind != Removed && id in s.log && s.log[id].Convertible?
      && Look(s.cache, id) != Some(s.log[id].record) && (id in s.cache || Settled(s, id))
      && !WillStore(Look(s.cache, id), KindsLeft(s, id))
    case _ => false
  }

  /** One id and an announced change of its view from `v` to `v'`. */
  lemma AnnouncedExactly(c: Option<Record>, v: Option<Record>, v': Option<Record>, kinds: seq<Kind>, kind: Kind,
                         settled: bool)
    requires KindsTell(kinds, kind != Added) && OnItsWay(c, v, kinds, settled)
    requires (kind == Added ==> v == None) && (kind == Removed ==> v' == None)
    ensures OnItsWay(c, v', kinds + [kind], settled)
       <==> !(kind == Updated && v' == None && c.Some? && Removed !in kinds)
  {
    DrainedTo(c, v, kinds);
    DrainedTo(c, v', kinds);
    assert (kinds + [kind])[..|kinds|] == kinds;
  }

  /** One id and a change that nothing announces. */
  lemma UnannouncedExactly(c: Option<Record>, v: Option<Record>, v': Option<Record>, kinds: seq<Kind>, settled: bool)
    requires KindsTell(kinds, true) && OnItsWay(c, v, kinds, settled)
    ensures OnItsWay(c, v', kinds, settled)
       <==> !(if v' == None then c.Some? && Removed !in kinds
              else v' != v && (c.Some? || settled) && !WillStore(c, kinds))
  {
    DrainedTo(c, v, kinds);
    DrainedTo(c, v', kinds);
  }

  lemma LogEventExactly(s: State, e: Event, id: word)
    requires Shape(s) && Enabled(s, e) && (e.LogAdd? || e.LogUpdate? || e.LogAssociate? || e.LogDelete?)
    requires KeyOnItsWay(s, id)
    ensures KeyOnItsWay(Step(s, e), id) <==> !(id == e.id && Loses(s, e))
  {
    var c, v, v', kinds := Look(s.cache, id), View(s.log, id), View(Step(s, e).log, id), KindsOf(s.pending, id);
    assert KindsTell(kinds, id in s.log);
    if e.LogAssociate? {
      if id == e.id { UnannouncedExactly(c, v, v', kinds, Settled(s, id)); }
    } else if s.registered {
      var kind := if e.LogAdd? then Added else if e.LogDelete? then Removed else Updated;
      KindsOneMore(s.pending, Signal(kind, e.id), id);
      if id == e.id {
        AnnouncedExactly(c, v, v', kinds, kind, Settled(s, id));
      } else {
        assert KindsOf(Step(s, e).pending, id) == kinds;
      }
    }
  }

  lemma ScanExactly(s: State, e: Event, id: word)
    requires Shape(s) && Enabled(s, e) && (e.ScanBegin? || e.ScanFail? || e.ScanNext? || e.ScanEnd?)
    requires KeyOnItsWay(s, id)
    ensures KeyOnItsWay(Step(s, e), id) <==> !(e.ScanNext? && id == s.scan.value[0] && Loses(s, e))
  {
    var t := Step(s, e);
    assert KindsTell(KindsOf(s.pending, id), id in s.log);
    DrainedTo(Look(s.cache, id), View(s.log, id), KindsOf(s.pending, id));
    DrainedTo(Look(t.cache, id), View(s.log, id), KindsOf(s.pending, id));
  }

  lemma DeliveryExactly(s: State, answered: bool, id: word)
    requires Shape(s) && Enabled(s, Deliver(answered)) && KeyOnItsWay(s, id)
    ensures KeyOnItsWay(Step(s, Deliver(answered)), id) <==> !(id == s.pending[0].id && Loses(s, Deliver(answered)))
  {
    var t := Step(s, Deliver(answered));
    var c, v, kinds := Look(s.cache, id), View(s.log, id), KindsOf(s.pending, id);
    assert KindsTell(kinds, id in s.log);
    DeliveredKey(s, answered, id);
    if id == s.pending[0].id {
      DrainedFromFront(c, v, kinds);
      StepKeepsShape(s, Deliver(answered));
      assert KindsTell(KindsOf(t.pending, id), id in t.log);
      DrainedTo(Look(t.cache, id), v, KindsOf(t.pending, id));
      DrainedTo(Handled(c, v, kinds[0]), v, kinds[1..]);
    }
  }

  /** One event: everything stays on its way if and only if the event loses nothing. */
  lemma OnTheirWayExactlyIfNothingLost(s: State, e: Event)
    requires Shape(s) && Enabled(s, e) && AllOnTheirWay(s)
    ensures AllOnTheirWay(Step(s, e)) <==> !Loses(s, e)
  {
    forall id: word
      ensures KeyOnItsWay(Step(s, e), id) <==> !(id == Concerned(s, e) && Loses(s, e))
    {
      assert KeyOnItsWay(s, id);
      match e {
        case Deliver(answered) => DeliveryExactly(s, answered, id);
        case ScanBegin(_) => ScanExactly(s, e, id);
        case ScanFail => ScanExactly(s, e, id);
        case ScanNext(_) => ScanExactly(s, e, id);
        case ScanEnd => ScanExactly(s, e, id);
        case _ => LogEventExactly(s, e, id);
      }
    }
    assert KeyOnItsWay(Step(s, e), Concerned(s, e)) <==> !Loses(s, e);
  }

  /** The one id that an event is about, if it is about one. */
  function Concerned(s: State, e: Event): (r: word)
    requires Enabled(s, e)
  {
    match e
    case LogAdd(id, _) => id
    case LogUpdate(id, _) => id
    case LogAssociate(id, _) => id
    case LogDelete(id) => id
    case ScanNext(_) => s.scan.value[0]
    case Deliver(_) => s.pending[0].id
    case _ => 0
  }

  // -------- whole runs --------

  /** No event of the run loses an entry. */
  predicate NothingLost(es: seq<Event>)
    requires Run(es).Some?
  {
    es == [] || (NothingLost(es[..|es| - 1]) && !Loses(Run(es[..|es| - 1]).value, es[|es| - 1]))
  }

  /** Everything is on its way at every point of the run. */
  ghost predicate AlwaysOnTheirWay(es: seq<Event>)
    requires Run(es).Some?
  {
    AllOnTheirWay(Run(es).value) && (es == [] || AlwaysOnTheirWay(es[..|es| - 1]))
  }

  /** In every run, whatever races with the initial scan: every entry is on its way into the cache throughout if and
      only if no event loses one. */
  lemma {:induction false} AlwaysOnTheirWayExactlyIfNothingLost(es: seq<Event>)
    requires Run(es).Some?
    ensures AlwaysOnTheirWay(es) <==> NothingLost(es)
  {
    if es != [] {
      var init := es[..|es| - 1];
      AlwaysOnTheirWayExactlyIfNothingLost(init);
      RunKeepsShape(init);
      if AllOnTheirWay(Run(init).value) {
        OnTheirWayExactlyIfNothingLost(Run(init).value, es[|es| - 1]);
      }
    }
  }

  predicate Agree(s: State, id: word) { Look(s.cache, id) == View(s.log, id) }

  lemma {:induction false} NoKindsNoSignal(pending: seq<Signal>, id: word)
    ensures KindsOf(pending, id) == [] <==> forall k | 0 <= k < |pending| :: pending[k].id != id
  {
    if pending != [] {
      NoKindsNoSignal(pending[..|pending| - 1], id);
    }
  }

  /** Once initialised, an id whose cached entry differs from the log has a signal waiting, and the queue will repair
      it, if nothing was lost. */
  lemma DisagreementIsAnnounced(es: seq<Event>, id: word)
    requires Run(es).Some? && Run(es).value.initialized && NothingLost(es)
    ensures var s := Run(es).value;
            && (!Agree(s, id) ==> exists k | 0 <= k < |s.pending| :: s.pending[k].id == id)
            && Drained(Look(s.cache, id), View(s.log, id), KindsOf(s.pending, id)) == View(s.log, id)
  {
    AlwaysOnTheirWayExactlyIfNothingLost(es);
    assert KeyOnItsWay(Run(es).value, id);
    NoKindsNoSignal(Run(es).value.pending, id);
  }

  /** With an empty queue the cache is the log, whatever raced with the initial scan, if nothing was lost. */
  lemma QuietCacheIsTheLog(es: seq<Event>)
    requires Run(es).Some? && Run(es).value.initialized && Run(es).value.pending == [] && NothingLost(es)
    ensures forall id: word :: Agree(Run(es).value, id)
  {
    forall id: word ensures Agree(Run(es).value, id) { DisagreementIsAnnounced(es, id); }
  }

  /** What is lost in a quiet state stays lost: the cache disagrees with the log, and nothing is pending. */
  lemma LostWhenQuiet(s: State, id: word, entry: LogEntry)
    requires Shape(s) && s.initialized && s.pending == [] && Agree(s, id) && id in s.log
    ensures var t := Step(s, LogAssociate(id, entry));
            t.pending == [] && (Agree(t, id) <==> View(t.log, id) == View(s.log, id))
    ensures var t := Step(Step(s, LogUpdate(id, entry)), Deliver(true));
            t.pending == [] && (Agree(t, id) <==> entry.Convertible? || id !in s.cache)
    ensures var t := Step(Step(s, LogUpdate(id, entry)), Deliver(false));
            t.pending == [] && (Agree(t, id) <==> View(t.log, id) == View(s.log, id))
  {
    assert s.registered;
  }
}
