/** The queue behind the notification dispatcher, as a state machine: notify/notify.go. */
module Notify {
  import opened Core
  import opened Seqs
  import opened SeveritySort

  /** After defaults a batch holds at least one event. */
  datatype Config = Config(maxBatch: nat, minSeverity: Option<Severity>)

  function WithDefaults(maxBatch: int, minSeverity: Option<Severity>): (c: Config)
    ensures c.maxBatch == (if 1 <= maxBatch then maxBatch else 100) && c.minSeverity == minSeverity
  {
    Config(if maxBatch <= 0 then 100 else maxBatch, minSeverity)
  }

  datatype Digest = Digest(moduleId: string, newlyOpen: seq<Finding>, resolved: seq<Finding>)

  predicate Empty(d: Digest) { d.newlyOpen == [] && d.resolved == [] }

  function KindText(k: EventKind): string {
    match k
    case Opened => "opened"
    case Closed => "resolved"
    case OtherKind(name) => name
  }

  function EventKey(e: Event): string {
    KindText(e.kind) + "|" + e.moduleId + "|" + e.finding.fingerprint
  }

  function KeysOf(events: seq<Event>): set<string> {
    if events == [] then {} else KeysOf(events[..|events| - 1]) + {EventKey(events[|events| - 1])}
  }

  lemma {:induction false} KeysOfMember(events: seq<Event>, key: string)
    ensures key in KeysOf(events) <==> exists i :: 0 <= i < |events| && EventKey(events[i]) == key
  {
    if events == [] {
    } else {
      var init := events[..|events| - 1];
      KeysOfMember(init, key);
      if key in KeysOf(init) {
        var i :| 0 <= i < |init| && EventKey(init[i]) == key;
        assert EventKey(events[i]) == key;
      }
      if i :| 0 <= i < |events| && EventKey(events[i]) == key {
        if i < |init| { assert EventKey(init[i]) == key; }
      }
    }
  }

  predicate PassesSeverity(cfg: Config, s: Severity) {
    cfg.minSeverity.None? || SeverityRank(s) >= SeverityRank(cfg.minSeverity.value)
  }

  /** The door: opened events below the configured severity are dropped, nothing else is. */
  predicate Admits(cfg: Config, e: Event) {
    e.kind == Opened ==> PassesSeverity(cfg, e.finding.severity)
  }

  /** The severities a configured minimum lets through. A name the product does not know ranks with
      info, on either side. */
  function AtLeast(min: Severity): set<Severity> {
    match min
    case Critical => {Critical}
    case High => {Critical, High}
    case Medium => {Critical, High, Medium}
    case Low => {Critical, High, Medium, Low}
    case _ => {Critical, High, Medium, Low, Info}
  }

  lemma AdmitsIff(cfg: Config, e: Event)
    ensures Admits(cfg, e) <==>
      || e.kind != Opened || cfg.minSeverity.None? || e.finding.severity in AtLeast(cfg.minSeverity.value)
      || (e.finding.severity.Unlisted? && (cfg.minSeverity.value.Info? || cfg.minSeverity.value.Unlisted?))
  {
  }

  // ----- the queue as a state machine -----

  /** Events since the last flush, in arrival order, and the windows flushed before. */
  datatype Queue = Queue(window: seq<Event>, flushed: seq<seq<Event>>, closed: bool)

  const EMPTY := Queue([], [], false)

  predicate Accepts(cfg: Config, q: Queue, e: Event) {
    Admits(cfg, e) && !q.closed && EventKey(e) !in KeysOf(q.window)
  }

  function Flushed(q: Queue): Queue {
    if q.window == [] then q else q.(window := [], flushed := q.flushed + [q.window])
  }

  datatype Op = Enqueue(event: Event) | Flush | Close

  function Perform(cfg: Config, q: Queue, op: Op): Queue {
    match op
    case Enqueue(e) =>
      if !Accepts(cfg, q, e) then q
      else
        var q' := q.(window := q.window + [e]);
        if |q'.window| >= cfg.maxBatch then Flushed(q') else q'
    case Flush => Flushed(q)
    case Close => Flushed(q).(closed := true)
  }

  function PerformAll(cfg: Config, q: Queue, ops: seq<Op>): Queue {
    if ops == [] then q else Perform(cfg, PerformAll(cfg, q, ops[..|ops| - 1]), ops[|ops| - 1])
  }

  /** The events accepted in the course of a run. */
  function AcceptedBy(cfg: Config, ops: seq<Op>): seq<Event> {
    if ops == [] then []
    else
      var init, op := ops[..|ops| - 1], ops[|ops| - 1];
      AcceptedBy(cfg, init)
      + if op.Enqueue? && Accepts(cfg, PerformAll(cfg, EMPTY, init), op.event) then [op.event] else []
  }

  function Concatenated(windows: seq<seq<Event>>): seq<Event> {
    if windows == [] then [] else Concatenated(windows[..|windows| - 1]) + windows[|windows| - 1]
  }

  ghost predicate DistinctEvents(w: seq<Event>) {
    forall i, j :: 0 <= i < j < |w| ==> EventKey(w[i]) != EventKey(w[j])
  }

  ghost predicate Bounded(cfg: Config, q: Queue) {
    && |q.window| < cfg.maxBatch
    && DistinctEvents(q.window)
    && (q.closed ==> q.window == [])
    && forall i :: 0 <= i < |q.flushed| ==>
         0 < |q.flushed[i]| <= cfg.maxBatch && DistinctEvents(q.flushed[i])
  }

  lemma PerformBounded(cfg: Config, q: Queue, op: Op)
    requires 1 <= cfg.maxBatch && Bounded(cfg, q)
    ensures Bounded(cfg, Perform(cfg, q, op))
  {
    if op.Enqueue? && Accepts(cfg, q, op.event) {
      var w := q.window + [op.event];
      KeysOfMember(q.window, EventKey(op.event));
      forall i | 0 <= i < |q.window| ensures EventKey(w[i]) != EventKey(op.event) {
        assert w[i] == q.window[i];
      }
      assert DistinctEvents(w);
    }
  }

  /** Over every sequence of operations: windows never repeat a key, at most MaxBatch - 1 events
      wait between calls, no flush is empty or larger than MaxBatch, and nothing waits after Close. */
  lemma {:induction false} RunsStayBounded(cfg: Config, ops: seq<Op>)
    requires 1 <= cfg.maxBatch
    ensures Bounded(cfg, PerformAll(cfg, EMPTY, ops))
  {
    if ops == [] {
    } else {
      RunsStayBounded(cfg, ops[..|ops| - 1]);
      PerformBounded(cfg, PerformAll(cfg, EMPTY, ops[..|ops| - 1]), ops[|ops| - 1]);
    }
  }

  lemma FlushKeepsEvents(q: Queue)
    ensures Concatenated(Flushed(q).flushed) + Flushed(q).window == Concatenated(q.flushed) + q.window
  {
    if q.window != [] {
      var ws := q.flushed + [q.window];
      assert ws[..|ws| - 1] == q.flushed;
    }
  }

  lemma PerformLast(cfg: Config, q: Queue, ops: seq<Op>, op: Op)
    ensures PerformAll(cfg, q, ops + [op]) == Perform(cfg, PerformAll(cfg, q, ops), op)
  {
    assert (ops + [op])[..|ops|] == ops;
  }

  /** After any operations, a flush or a close leaves nothing waiting: all that was accepted is in the
      windows sent. A close also closes. */
  lemma FlushLeavesNothing(cfg: Config, ops: seq<Op>, op: Op)
    requires op == Flush || op == Close
    ensures var q := PerformAll(cfg, EMPTY, ops + [op]);
            && q.window == [] && AcceptedBy(cfg, ops) == Concatenated(q.flushed)
            && (op == Close ==> q.closed)
            && (op == Flush ==> q.closed == PerformAll(cfg, EMPTY, ops).closed)
  {
    PerformLast(cfg, EMPTY, ops, op);
    EventsAreConserved(cfg, ops);
    EventsAreConserved(cfg, ops + [op]);
    assert (ops + [op])[..|ops|] == ops;
    assert AcceptedBy(cfg, ops + [op]) == AcceptedBy(cfg, ops);
  }

  /** A window is sent by a flush or a close that finds it not empty, or by the offer that fills it,
      and by nothing else; what is sent is the whole of it. */
  lemma SentWhen(cfg: Config, ops: seq<Op>, op: Op)
    requires 1 <= cfg.maxBatch
    ensures var q, q' := PerformAll(cfg, EMPTY, ops), PerformAll(cfg, EMPTY, ops + [op]);
      && (q'.flushed != q.flushed <==>
            || ((op == Flush || op == Close) && q.window != [])
            || (op.Enqueue? && Accepts(cfg, q, op.event) && |q.window| == cfg.maxBatch - 1))
      && (q'.flushed != q.flushed ==>
            && q'.window == []
            && q'.flushed == q.flushed + [if op.Enqueue? then q.window + [op.event] else q.window])
  {
    PerformLast(cfg, EMPTY, ops, op);
    RunsStayBounded(cfg, ops);
  }

  /** An event is accepted iff it passes the filter, the queue is open, and its key is not waiting. It
      then waits at the end, unless it fills the window. */
  lemma OfferMeaning(cfg: Config, ops: seq<Op>, e: Event)
    requires 1 <= cfg.maxBatch
    ensures var q, q' := PerformAll(cfg, EMPTY, ops), PerformAll(cfg, EMPTY, ops + [Enqueue(e)]);
            var taken := Admits(cfg, e) && !q.closed
                         && forall i :: 0 <= i < |q.window| ==> EventKey(q.window[i]) != EventKey(e);
      && (!taken ==> q' == q)
      && (taken && |q.window| + 1 < cfg.maxBatch ==> q' == q.(window := q.window + [e]))
      && (taken && |q.window| + 1 == cfg.maxBatch ==>
            q' == q.(window := [], flushed := q.flushed + [q.window + [e]]))
      && |q.window| < cfg.maxBatch
  {
    PerformLast(cfg, EMPTY, ops, Enqueue(e));
    RunsStayBounded(cfg, ops);
    KeysOfMember(PerformAll(cfg, EMPTY, ops).window, EventKey(e));
  }

  function Held(q: Queue): seq<Event> { Concatenated(q.flushed) + q.window }

  lemma StepKeepsEvents(cfg: Config, q: Queue, op: Op)
    ensures Held(Perform(cfg, q, op))
         == Held(q) + if op.Enqueue? && Accepts(cfg, q, op.event) then [op.event] else []
  {
    FlushKeepsEvents(q);
    if op.Enqueue? && Accepts(cfg, q, op.event) {
      var q' := q.(window := q.window + [op.event]);
      FlushKeepsEvents(q');
      assert Held(q') == Held(q) + [op.event];
    }
  }

  /** Every accepted event is in exactly one flushed window or still waiting, in arrival order. */
  lemma {:induction false} EventsAreConserved(cfg: Config, ops: seq<Op>)
    ensures AcceptedBy(cfg, ops) == Held(PerformAll(cfg, EMPTY, ops))
  {
    if ops == [] {
    } else {
      EventsAreConserved(cfg, ops[..|ops| - 1]);
      StepKeepsEvents(cfg, PerformAll(cfg, EMPTY, ops[..|ops| - 1]), ops[|ops| - 1]);
    }
  }

  /** The window an offer lands in: the one it triggered the flush of, or the current one. */
  function Landing(before: Queue, after: Queue): seq<Event>
    requires |after.flushed| >= |before.flushed|
  {
    if |after.flushed| > |before.flushed| then after.flushed[|after.flushed| - 1] else after.window
  }

  /** Offering an event to an open queue, once or repeatedly, puts its key into the window exactly once. */
  lemma OfferedOnce(cfg: Config, q: Queue, e: Event)
    requires 1 <= cfg.maxBatch && Bounded(cfg, q) && !q.closed && Admits(cfg, e)
    ensures var after := Perform(cfg, q, Enqueue(e));
            && |after.flushed| >= |q.flushed|
            && var w := Landing(q, after);
               q.window <= w && DistinctEvents(w)
               && exists i :: 0 <= i < |w| && EventKey(w[i]) == EventKey(e)
  {
    PerformBounded(cfg, q, Enqueue(e));
    var w := Landing(q, Perform(cfg, q, Enqueue(e)));
    if Accepts(cfg, q, e) {
      assert w == q.window + [e] && EventKey(w[|q.window|]) == EventKey(e);
    } else {
      KeysOfMember(q.window, EventKey(e));
      var i :| 0 <= i < |q.window| && EventKey(q.window[i]) == EventKey(e);
      assert EventKey(w[i]) == EventKey(e);
    }
  }

  /** After Close nothing changes any more. */
  lemma {:induction false} ClosedForGood(cfg: Config, q: Queue, ops: seq<Op>)
    requires q.closed && q.window == []
    ensures PerformAll(cfg, q, ops) == q
  {
    if ops == [] {
    } else {
      ClosedForGood(cfg, q, ops[..|ops| - 1]);
    }
  }

  /** A key says which kind, module and fingerprint it stands for while kinds and modules hold no bar. */
  lemma KeysAreInjective(a: Event, b: Event)
    requires '|' !in a.moduleId && '|' !in b.moduleId
    requires '|' !in KindText(a.kind) && '|' !in KindText(b.kind)
    ensures EventKey(a) == EventKey(b) <==>
            a.kind == b.kind && a.moduleId == b.moduleId && a.finding.fingerprint == b.finding.fingerprint
  {
    var x, y := a.moduleId + "|" + a.finding.fingerprint, b.moduleId + "|" + b.finding.fingerprint;
    assert EventKey(a) == KindText(a.kind) + "|" + x && EventKey(b) == KindText(b.kind) + "|" + y;
    JoinInjective('|', KindText(a.kind), x, KindText(b.kind), y);
    JoinInjective('|', a.moduleId, a.finding.fingerprint, b.moduleId, b.finding.fingerprint);
  }
}
