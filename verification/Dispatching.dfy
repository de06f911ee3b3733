/** The Dispatcher object of notify/notify.go: the maps and the timer it keeps, and the digests it
    hands to its channels. */
module Dispatching {
  import opened Core
  import opened Seqs
  import opened SeveritySort
  import opened Reconcile
  import opened Announce
  import opened Notify

  function OfModule(m: string): Event -> bool { (e: Event) => e.moduleId == m }

  function ForModule(w: seq<Event>, m: string): seq<Event> { Filter(w, OfModule(m)) }

  function Modules(w: seq<Event>): set<string> { set e | e in w :: e.moduleId }

  function PickKind(kind: EventKind): Event -> Option<Finding> {
    (e: Event) => if e.kind == kind then Some(e.finding) else None
  }

  /** The findings of one kind, in arrival order. */
  function Picked(events: seq<Event>, kind: EventKind): seq<Finding> { Collect(events, PickKind(kind)) }

  /** One module's digest: opened findings most severe first, resolved ones as they came. */
  function DigestFor(m: string, events: seq<Event>): Digest {
    Digest(m, BySeverity(Picked(events, Opened)), Picked(events, Closed))
  }

  /** The digests one flush sends, by module; an empty one is not sent. */
  function DigestsOf(w: seq<Event>): map<string, Digest> {
    map m | m in Modules(w) && !Empty(DigestFor(m, ForModule(w, m))) :: DigestFor(m, ForModule(w, m))
  }

  // ----- what the digests carry -----

  function Carried(w: seq<Event>, m: string, kind: EventKind): multiset<Finding> {
    if m !in DigestsOf(w) then multiset{}
    else if kind == Opened then multiset(DigestsOf(w)[m].newlyOpen)
    else multiset(DigestsOf(w)[m].resolved)
  }

  function Delivered(windows: seq<seq<Event>>, m: string, kind: EventKind): multiset<Finding> {
    if windows == [] then multiset{}
    else Delivered(windows[..|windows| - 1], m, kind) + Carried(windows[|windows| - 1], m, kind)
  }

  lemma {:induction false} ModuleAbsent(w: seq<Event>, m: string)
    requires m !in Modules(w)
    ensures ForModule(w, m) == []
  {
    if w == [] {
    } else {
      assert forall e :: e in w[..|w| - 1] ==> e in w;
      assert w[|w| - 1].moduleId in Modules(w);
      ModuleAbsent(w[..|w| - 1], m);
    }
  }

  lemma CarriedIsPicked(w: seq<Event>, m: string, kind: EventKind)
    requires kind == Opened || kind == Closed
    ensures Carried(w, m, kind) == multiset(Picked(ForModule(w, m), kind))
  {
    var events := ForModule(w, m);
    if m !in Modules(w) { ModuleAbsent(w, m); }
    StableSort(Picked(events, Opened));
    assert BySeverity(Picked(events, Opened)) == [] ==> multiset(Picked(events, Opened)) == multiset{};
  }

  lemma PickedConcat(a: seq<Event>, b: seq<Event>, m: string, kind: EventKind)
    ensures multiset(Picked(ForModule(a + b, m), kind))
         == multiset(Picked(ForModule(a, m), kind)) + multiset(Picked(ForModule(b, m), kind))
  {
    FilterConcat(a, b, OfModule(m));
    CollectConcat(ForModule(a, m), ForModule(b, m), PickKind(kind));
  }

  lemma {:induction false} WindowsDeliver(windows: seq<seq<Event>>, m: string, kind: EventKind)
    requires kind == Opened || kind == Closed
    ensures Delivered(windows, m, kind) == multiset(Picked(ForModule(Concatenated(windows), m), kind))
  {
    if windows == [] {
    } else {
      var init, w := windows[..|windows| - 1], windows[|windows| - 1];
      WindowsDeliver(init, m, kind);
      CarriedIsPicked(w, m, kind);
      PickedConcat(Concatenated(init), w, m, kind);
    }
  }

  /** Over every run, per module and kind: what was accepted is what the digests carried plus what
      still waits; nothing is lost, nothing is sent twice. */
  lemma DigestsConserve(cfg: Config, ops: seq<Op>, m: string, kind: EventKind)
    requires kind == Opened || kind == Closed
    ensures multiset(Picked(ForModule(AcceptedBy(cfg, ops), m), kind))
         == Delivered(PerformAll(cfg, EMPTY, ops).flushed, m, kind)
            + multiset(Picked(ForModule(PerformAll(cfg, EMPTY, ops).window, m), kind))
  {
    var q := PerformAll(cfg, EMPTY, ops);
    EventsAreConserved(cfg, ops);
    PickedConcat(Concatenated(q.flushed), q.window, m, kind);
    WindowsDeliver(q.flushed, m, kind);
  }

  lemma ForModuleMembers(w: seq<Event>, m: string)
    ensures forall e :: e in ForModule(w, m) <==> e in w && e.moduleId == m
  {
    FilterCount(w, OfModule(m));
    forall e ensures e in ForModule(w, m) <==> e in w && e.moduleId == m {
      assert e in ForModule(w, m) <==> e in multiset(ForModule(w, m));
      assert e in w <==> e in multiset(w);
    }
  }

  lemma PickedAny(events: seq<Event>, kind: EventKind)
    ensures Picked(events, kind) != [] <==> exists e :: e in events && e.kind == kind
  {
    CollectMember(events, PickKind(kind));
    if e :| e in events && e.kind == kind {
      assert PickKind(kind)(e) == Some(e.finding);
      assert e.finding in Picked(events, kind);
    }
    if Picked(events, kind) != [] {
      assert Picked(events, kind)[0] in Picked(events, kind);
    }
  }

  /** In every digest the opened findings are those of the window, most severe first and otherwise as
      they came, and the resolved ones are as they came. */
  lemma DigestsAreOrdered(w: seq<Event>, m: string)
    requires m in DigestsOf(w)
    ensures var d := DigestsOf(w)[m];
      && d.moduleId == m && Descending(d.newlyOpen) && d.resolved == Picked(ForModule(w, m), Closed)
      && forall r :: ByRank(d.newlyOpen, r) == ByRank(Picked(ForModule(w, m), Opened), r)
  {
    StableSort(Picked(ForModule(w, m), Opened));
  }

  lemma SortedNonEmpty(s: seq<Finding>)
    ensures BySeverity(s) == [] <==> s == []
  {
    StableSort(s);
    assert |s| == |multiset(s)| == |multiset(BySeverity(s))| == |BySeverity(s)|;
  }

  /** A module gets a digest exactly when its window holds an opened or resolved event: a batch of
      any other kind is accepted, counted, and then sent to nobody. */
  lemma DigestIffListedKind(w: seq<Event>, m: string)
    ensures m in DigestsOf(w) <==> exists e :: e in w && e.moduleId == m && !e.kind.OtherKind?
  {
    var events := ForModule(w, m);
    ForModuleMembers(w, m);
    PickedAny(events, Opened);
    PickedAny(events, Closed);
    SortedNonEmpty(Picked(events, Opened));
  }

  // ----- what digests do not show -----

  function OfKind(kind: EventKind): Event -> bool { (e: Event) => e.kind == kind }

  function PickIn(m: string, kind: EventKind): Event -> Option<Finding> {
    (e: Event) => if e.moduleId == m && e.kind == kind then Some(e.finding) else None
  }

  /** One module's findings of one kind depend on the events of that kind alone. */
  lemma PickedFromKind(w: seq<Event>, m: string, kind: EventKind)
    ensures Picked(ForModule(w, m), kind) == Collect(Filter(w, OfKind(kind)), PickIn(m, kind))
  {
    ForModuleMembers(w, m);
    CollectCongruent(ForModule(w, m), PickKind(kind), PickIn(m, kind));
    CollectFiltered(w, OfModule(m), PickIn(m, kind));
    CollectFiltered(w, OfKind(kind), PickIn(m, kind));
  }

  lemma DigestDomain(w: seq<Event>, m: string)
    ensures m in DigestsOf(w) <==> !Empty(DigestFor(m, ForModule(w, m)))
  {
    if m !in Modules(w) {
      ModuleAbsent(w, m);
      SortedNonEmpty([]);
    }
  }

  /** Digests do not show how the kinds were interleaved: windows with the same opened events in the
      same order, and the same resolved ones, are told alike. */
  lemma DigestsHideOrder(w: seq<Event>, x: seq<Event>)
    requires Filter(w, OfKind(Opened)) == Filter(x, OfKind(Opened))
    requires Filter(w, OfKind(Closed)) == Filter(x, OfKind(Closed))
    ensures DigestsOf(w) == DigestsOf(x)
  {
    forall m ensures DigestFor(m, ForModule(w, m)) == DigestFor(m, ForModule(x, m))
             ensures m in DigestsOf(w) <==> m in DigestsOf(x)
    {
      PickedFromKind(w, m, Opened);
      PickedFromKind(x, m, Opened);
      PickedFromKind(w, m, Closed);
      PickedFromKind(x, m, Closed);
      DigestDomain(w, m);
      DigestDomain(x, m);
    }
  }

  // ----- counting what is pending, module by module -----

  function InModules(ms: set<string>): Event -> bool { (e: Event) => e.moduleId in ms }

  lemma {:induction false} OneMoreModule(w: seq<Event>, ms: set<string>, m: string)
    requires m !in ms
    ensures |Filter(w, InModules(ms + {m}))| == |Filter(w, InModules(ms))| + |ForModule(w, m)|
  {
    if w == [] {
    } else {
      OneMoreModule(w[..|w| - 1], ms, m);
    }
  }

  lemma {:induction false} AllModules(w: seq<Event>, ms: set<string>)
    requires forall i :: 0 <= i < |w| ==> w[i].moduleId in ms
    ensures Filter(w, InModules(ms)) == w
  {
    if w == [] {
    } else {
      AllModules(w[..|w| - 1], ms);
    }
  }

  lemma {:induction false} NoModules(w: seq<Event>)
    ensures Filter(w, InModules({})) == []
  {
    if w == [] {
    } else {
      NoModules(w[..|w| - 1]);
    }
  }

  lemma GroupGrows(w: seq<Event>, e: Event, m: string)
    ensures ForModule(w + [e], m) == if e.moduleId == m then ForModule(w, m) + [e] else ForModule(w, m)
  {
    assert (w + [e])[..|w|] == w;
  }

  /** The grouped map holds exactly the window. */
  ghost predicate Groups(pending: map<string, seq<Event>>, w: seq<Event>) {
    pending.Keys == Modules(w) && forall m :: m in pending ==> pending[m] == ForModule(w, m)
  }

  /** One set of digests per flushed window. */
  ghost function SentFor(windows: seq<seq<Event>>): seq<map<string, Digest>> {
    if windows == [] then [] else SentFor(windows[..|windows| - 1]) + [DigestsOf(windows[|windows| - 1])]
  }

  lemma SentGrows(windows: seq<seq<Event>>, w: seq<Event>)
    ensures SentFor(windows + [w]) == SentFor(windows) + [DigestsOf(w)]
  {
    assert (windows + [w])[..|windows|] == windows;
  }

  function Added(pending: map<string, seq<Event>>, e: Event): map<string, seq<Event>> {
    pending[e.moduleId := (if e.moduleId in pending then pending[e.moduleId] else []) + [e]]
  }

  lemma GroupsGrow(pending: map<string, seq<Event>>, w: seq<Event>, e: Event)
    requires Groups(pending, w)
    ensures Groups(Added(pending, e), w + [e])
  {
    assert Modules(w + [e]) == Modules(w) + {e.moduleId};
    forall m | m in Added(pending, e) ensures Added(pending, e)[m] == ForModule(w + [e], m) {
      GroupGrows(w, e, m);
      if e.moduleId !in pending { ModuleAbsent(w, e.moduleId); }
    }
  }

  /** The map the dispatcher builds, one event at a time. */
  function Grouped(w: seq<Event>): map<string, seq<Event>> {
    if w == [] then map[] else Added(Grouped(w[..|w| - 1]), w[|w| - 1])
  }

  lemma {:induction false} GroupedHoldsWindow(w: seq<Event>)
    ensures Groups(Grouped(w), w)
  {
    if w == [] {
    } else {
      GroupedHoldsWindow(w[..|w| - 1]);
      GroupsGrow(Grouped(w[..|w| - 1]), w[..|w| - 1], w[|w| - 1]);
      assert w == w[..|w| - 1] + [w[|w| - 1]];
    }
  }

  lemma OneMore(w: seq<Event>, e: Event)
    ensures Grouped(w + [e]) == Added(Grouped(w), e) && KeysOf(w + [e]) == KeysOf(w) + {EventKey(e)}
  {
    assert (w + [e])[..|w|] == w;
  }

  /** The sum over modules that decides the early flush. */
  method PendingTotal(pending: map<string, seq<Event>>, ghost w: seq<Event>) returns (total: nat)
    requires pending == Grouped(w)
    ensures total == |w|
  {
    GroupedHoldsWindow(w);
    total := 0;
    var todo := pending.Keys;
    NoModules(w);
    assert pending.Keys - todo == {};
    while todo != {}
      invariant todo <= pending.Keys
      invariant total == |Filter(w, InModules(pending.Keys - todo))|
      decreases todo
    {
      var m :| m in todo;
      OneMoreModule(w, pending.Keys - todo, m);
      assert pending.Keys - (todo - {m}) == (pending.Keys - todo) + {m};
      total := total + |pending[m]|;
      todo := todo - {m};
    }
    assert pending.Keys - todo == pending.Keys;
    assert forall i :: 0 <= i < |w| ==> w[i].moduleId in Modules(w);
    AllModules(w, pending.Keys);
  }

  /** Split one module's events by kind and sort the opened ones. */
  method BuildDigest(m: string, events: seq<Event>) returns (d: Digest)
    ensures d == DigestFor(m, events)
  {
    var newlyOpen, resolved: seq<Finding> := [], [];
    for i := 0 to |events|
      invariant newlyOpen == Picked(events[..i], Opened) && resolved == Picked(events[..i], Closed)
    {
      CollectNext(events, PickKind(Opened), i);
      CollectNext(events, PickKind(Closed), i);
      match events[i].kind
      case Opened => newlyOpen := newlyOpen + [events[i].finding];
      case Closed => resolved := resolved + [events[i].finding];
      case OtherKind(_) =>
    }
    assert events[..|events|] == events;
    var buffer := new Finding[|newlyOpen|](i requires 0 <= i < |newlyOpen| => newlyOpen[i]);
    assert buffer[..] == newlyOpen;
    SortBySeverity(buffer);
    d := Digest(m, buffer[..], resolved);
  }

  /** The digests of a grouped map that are worth sending. */
  function Built(pending: map<string, seq<Event>>): map<string, Digest> {
    map m | m in pending && !Empty(DigestFor(m, pending[m])) :: DigestFor(m, pending[m])
  }

  lemma BuiltFromWindow(w: seq<Event>)
    ensures Built(Grouped(w)) == DigestsOf(w)
  {
    GroupedHoldsWindow(w);
  }

  lemma {:induction false} GroupedEmpty(w: seq<Event>)
    ensures Grouped(w) == map[] <==> w == []
  {
    if w == [] {
    } else {
      assert w[|w| - 1].moduleId in Grouped(w);
    }
  }

  method BuildDigests(pending: map<string, seq<Event>>) returns (digests: map<string, Digest>)
    ensures digests == Built(pending)
  {
    digests := map[];
    var todo := pending.Keys;
    while todo != {}
      invariant todo <= pending.Keys
      invariant digests == Built(pending - todo)
      decreases todo
    {
      var m :| m in todo;
      var d := BuildDigest(m, pending[m]);
      BuiltOneMore(pending, todo, m, d);
      if !Empty(d) { digests := digests[m := d]; }
      todo := todo - {m};
    }
    assert pending - todo == pending;
  }

  lemma BuiltOneMore(pending: map<string, seq<Event>>, todo: set<string>, m: string, d: Digest)
    requires m in todo && todo <= pending.Keys && d == DigestFor(m, pending[m])
    ensures Built(pending - (todo - {m}))
         == if Empty(d) then Built(pending - todo) else Built(pending - todo)[m := d]
  {
    assert pending - (todo - {m}) == (pending - todo)[m := pending[m]];
  }

  class Dispatcher {
    const cfg: Config
    var pending: map<string, seq<Event>>
    var seen: set<string>
    var timerArmed: bool
    var closed: bool
    /** What was handed to the channels, one entry per flush. */
    var sent: seq<map<string, Digest>>
    /** The same history, in arrival order. */
    ghost var queue: Queue

    /** The maps agree with the history. */
    ghost predicate Consistent()
      reads this
    {
      && pending == Grouped(queue.window)
      && seen == KeysOf(queue.window)
      && closed == queue.closed
      && sent == SentFor(queue.flushed)
    }

    ghost predicate Valid()
      reads this
    {
      Consistent() && 1 <= cfg.maxBatch && (timerArmed <==> queue.window != [])
    }

    constructor (maxBatch: int, minSeverity: Option<Severity>)
      ensures Valid() && queue == EMPTY && cfg == WithDefaults(maxBatch, minSeverity)
    {
      cfg := WithDefaults(maxBatch, minSeverity);
      pending, seen, timerArmed, closed, sent := map[], {}, false, false, [];
      queue := EMPTY;
    }

    method Send()
      requires Consistent()
      modifies this`sent
      ensures sent == SentFor(queue.flushed + [queue.window])
      ensures sent == old(sent) + [DigestsOf(queue.window)]
    {
      var digests := BuildDigests(pending);
      BuiltFromWindow(queue.window);
      SentGrows(queue.flushed, queue.window);
      sent := sent + [digests];
    }

    /** The window is sent: forget it. */
    method Clear()
      requires queue.window != [] && sent == SentFor(queue.flushed + [queue.window]) && closed == queue.closed
      modifies this`pending, this`seen, this`queue
      ensures Consistent() && queue == Flushed(old(queue)) && pending == map[] && seen == {}
    {
      pending, seen := map[], {};
      queue := Flushed(queue);
    }

    /** flushLocked: disarm the timer, build a digest per module, clear the window, send. */
    method FlushLocked()
      requires Consistent()
      modifies this
      ensures Consistent() && queue == Flushed(old(queue)) && closed == old(closed)
      ensures pending == map[] && seen == {} && !timerArmed
      ensures sent == old(sent) + if old(queue.window) == [] then [] else [DigestsOf(old(queue.window))]
    {
      timerArmed := false;
      GroupedEmpty(queue.window);
      if pending == map[] { return; }
      Send();
      Clear();
    }

    /** The part of Enqueue that runs for an accepted event. */
    method Take(e: Event)
      requires Valid() && Accepts(cfg, queue, e)
      modifies this
      ensures Valid() && queue == Perform(cfg, old(queue), Op.Enqueue(e))
    {
      OneMore(queue.window, e);
      seen := seen + {EventKey(e)};
      pending := Added(pending, e);
      queue := queue.(window := queue.window + [e]);
      var total := PendingTotal(pending, queue.window);
      if total >= cfg.maxBatch {
        FlushLocked();
      } else if !timerArmed {
        timerArmed := true;
      }
    }

    method Enqueue(e: Event)
      requires Valid()
      modifies this
      ensures Valid() && queue == Perform(cfg, old(queue), Op.Enqueue(e))
    {
      if e.kind == Opened && !PassesSeverity(cfg, e.finding.severity) { return; }
      if closed { return; }
      var key := EventKey(e);
      if key in seen { return; }
      Take(e);
    }

    /** Called by the timer, or directly. */
    method Flush()
      requires Valid()
      modifies this
      ensures Valid() && queue == Perform(cfg, old(queue), Op.Flush) && closed == old(closed)
      ensures pending == map[] && seen == {} && !timerArmed
      ensures sent == old(sent) + if old(queue.window) == [] then [] else [DigestsOf(old(queue.window))]
    {
      FlushLocked();
    }

    method Close()
      requires Valid()
      modifies this
      ensures Valid() && queue == Perform(cfg, old(queue), Op.Close) && closed
      ensures pending == map[] && seen == {} && !timerArmed
      ensures sent == old(sent) + if old(queue.window) == [] then [] else [DigestsOf(old(queue.window))]
    {
      FlushLocked();
      closed := true;
      queue := queue.(closed := true);
    }
  }

  // ----- the bridge from reconcile results -----

  function Offers(events: seq<Event>): seq<Op> {
    if events == [] then [] else Offers(events[..|events| - 1]) + [Op.Enqueue(events[|events| - 1])]
  }

  lemma OfferNext(cfg: Config, q: Queue, events: seq<Event>, e: Event)
    ensures PerformAll(cfg, q, Offers(events + [e])) == Perform(cfg, PerformAll(cfg, q, Offers(events)), Op.Enqueue(e))
  {
    assert (events + [e])[..|events|] == events;
    assert Offers(events + [e]) == Offers(events) + [Op.Enqueue(e)];
    assert (Offers(events) + [Op.Enqueue(e)])[..|Offers(events)|] == Offers(events);
  }

  lemma {:induction false} PerformConcat(cfg: Config, q: Queue, xs: seq<Op>, ys: seq<Op>)
    ensures PerformAll(cfg, q, xs + ys) == PerformAll(cfg, PerformAll(cfg, q, xs), ys)
  {
    if ys == [] {
      assert xs + ys == xs;
    } else {
      assert (xs + ys)[..|xs + ys| - 1] == xs + ys[..|ys| - 1];
      PerformConcat(cfg, q, xs, ys[..|ys| - 1]);
    }
  }

  lemma {:induction false} OffersConcat(a: seq<Event>, b: seq<Event>)
    ensures Offers(a + b) == Offers(a) + Offers(b)
  {
    if b == [] {
      assert a + b == a;
    } else {
      assert (a + b)[..|a + b| - 1] == a + b[..|b| - 1];
      OffersConcat(a, b[..|b| - 1]);
    }
  }

  /** One of the bridge's loops: offer every finding of a list under one kind. */
  method OfferAll(d: Dispatcher, kind: EventKind, moduleId: string, fs: seq<Finding>)
    requires d.Valid()
    modifies d
    ensures d.Valid()
    ensures d.queue == PerformAll(d.cfg, old(d.queue), Offers(Tagged(kind, moduleId, fs)))
  {
    ghost var q, events := d.queue, Tagged(kind, moduleId, fs);
    for i := 0 to |fs|
      invariant d.Valid() && d.queue == PerformAll(d.cfg, q, Offers(events[..i]))
    {
      var e := Event(kind, moduleId, fs[i]);
      assert events[..i + 1] == events[..i] + [e];
      d.Enqueue(e);
      OfferNext(d.cfg, q, events[..i], e);
    }
    assert events[..|fs|] == events;
  }

  /** BindScheduler's callback: every announcement of a reconcile is offered, opened ones first. */
  method OnResult(d: Dispatcher, moduleId: string, res: ReconcileResult)
    requires d.Valid()
    modifies d
    ensures d.Valid()
    ensures d.queue == PerformAll(d.cfg, old(d.queue), Offers(Announcements(moduleId, res)))
  {
    ghost var a, b := Tagged(Opened, moduleId, res.newlyOpen), Tagged(Closed, moduleId, res.resolved);
    OffersConcat(a, b);
    PerformConcat(d.cfg, d.queue, Offers(a), Offers(b));
    OfferAll(d, Opened, moduleId, res.newlyOpen);
    OfferAll(d, Closed, moduleId, res.resolved);
  }

  /** sendWithRetry, with the channel's answer to each attempt as a parameter: one success at most,
      at the first attempt that would succeed, and an error only when every attempt failed. */
  method SendWithRetry(retries: nat, succeeds: nat -> bool) returns (attempts: nat, delivered: bool)
    ensures delivered <==> exists k :: 0 <= k < retries && succeeds(k)
    ensures delivered ==> 0 < attempts <= retries && succeeds(attempts - 1)
    ensures forall k :: 0 <= k < attempts - 1 ==> !succeeds(k)
    ensures !delivered ==> attempts == retries
  {
    attempts := 0;
    while attempts < retries
      invariant attempts <= retries && forall k :: 0 <= k < attempts ==> !succeeds(k)
    {
      attempts := attempts + 1;
      if succeeds(attempts - 1) { return attempts, true; }
    }
    return attempts, false;
  }
}
