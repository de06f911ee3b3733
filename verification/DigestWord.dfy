/** What a digest says about one finding: when it fixes the last word, and when that word is the
    stored status. */
module DigestWord {
  import opened Core
  import opened Seqs
  import opened Stores
  import opened Pointwise
  import opened Announce
  import opened Lifecycle
  import opened RunProperties
  import opened Notify
  import opened Dispatching

  ghost predicate Holds(w: seq<Event>, k: RecordKey, kind: EventKind) {
    exists e :: e in w && About(e, k) && e.kind == kind
  }

  /** The last opened or resolved event about a finding. */
  function LastWord(w: seq<Event>, k: RecordKey): Option<EventKind> {
    if w == [] then None
    else if About(w[|w| - 1], k) && !w[|w| - 1].kind.OtherKind? then Some(w[|w| - 1].kind)
    else LastWord(w[..|w| - 1], k)
  }

  /** Every window with these digests has the same last word on the finding. */
  ghost predicate Told(w: seq<Event>, k: RecordKey) {
    forall v :: DistinctEvents(v) && DigestsOf(v) == DigestsOf(w) ==> LastWord(v, k) == LastWord(w, k)
  }

  // ----- what digests mention -----

  /** The findings a set of digests lists for one module and kind. */
  function Listed(digests: map<string, Digest>, m: string, kind: EventKind): seq<Finding> {
    if m !in digests then []
    else if kind == Opened then digests[m].newlyOpen
    else digests[m].resolved
  }

  ghost predicate Mentions(digests: map<string, Digest>, k: RecordKey, kind: EventKind) {
    exists f :: f in Listed(digests, k.moduleId, kind) && f.fingerprint == k.fingerprint
  }

  lemma ListedIsPicked(w: seq<Event>, m: string, kind: EventKind)
    requires kind == Opened || kind == Closed
    ensures forall f :: f in Listed(DigestsOf(w), m, kind) <==> f in Picked(ForModule(w, m), kind)
  {
    var picked, listed := Picked(ForModule(w, m), kind), Listed(DigestsOf(w), m, kind);
    CarriedIsPicked(w, m, kind);
    assert multiset(listed) == multiset(picked);
    forall f ensures f in listed <==> f in picked {
      assert f in listed <==> f in multiset(listed);
      assert f in picked <==> f in multiset(picked);
    }
  }

  /** Digests mention a finding under a kind iff the window holds such an event. */
  lemma MentionsIffHolds(w: seq<Event>, k: RecordKey, kind: EventKind)
    requires kind == Opened || kind == Closed
    ensures Mentions(DigestsOf(w), k, kind) <==> Holds(w, k, kind)
  {
    var m := k.moduleId;
    ListedIsPicked(w, m, kind);
    ForModuleMembers(w, m);
    CollectMember(ForModule(w, m), PickKind(kind));
    if e :| e in w && About(e, k) && e.kind == kind {
      assert PickKind(kind)(e) == Some(e.finding);
      assert e.finding in Listed(DigestsOf(w), m, kind);
    }
  }

  // ----- when digests fix the last word -----

  lemma {:induction false} LastWordIsHeld(w: seq<Event>, k: RecordKey)
    ensures match LastWord(w, k)
            case Some(kind) => Holds(w, k, kind) && !kind.OtherKind?
            case None => forall kind :: Holds(w, k, kind) ==> kind.OtherKind?
  {
    if w == [] {
    } else {
      var init, last := w[..|w| - 1], w[|w| - 1];
      LastWordIsHeld(init, k);
      assert w == init + [last];
      assert last in w && forall e :: e in init ==> e in w;
    }
  }

  lemma {:induction false} LastWordConcat(a: seq<Event>, b: seq<Event>, k: RecordKey)
    ensures LastWord(a + b, k) == if LastWord(b, k).Some? then LastWord(b, k) else LastWord(a, k)
  {
    if b == [] {
      assert a + b == a;
    } else {
      assert (a + b)[..|a + b| - 1] == a + b[..|b| - 1];
      LastWordConcat(a, b[..|b| - 1], k);
    }
  }

  function OtherThan(kind: EventKind): Event -> bool { (e: Event) => e.kind != kind }

  /** The events of one kind moved to the end, each group in its order. */
  function KindLast(w: seq<Event>, kind: EventKind): seq<Event> {
    Filter(w, OtherThan(kind)) + Filter(w, OfKind(kind))
  }

  function KeyFn(): Event -> Option<string> { (e: Event) => Some(EventKey(e)) }

  lemma KindLastDistinct(w: seq<Event>, kind: EventKind)
    requires DistinctEvents(w)
    ensures DistinctEvents(KindLast(w, kind))
  {
    var v := KindLast(w, kind);
    FilterCount(w, OtherThan(kind));
    FilterCount(w, OfKind(kind));
    assert multiset(v) == multiset(w);
    CollectPermutation(w, v, KeyFn());
    CollectDistinct(w, KeyFn());
    CollectDistinct(v, KeyFn());
    NoDuplicatesCount(Collect(w, KeyFn()));
    NoDuplicatesCount(Collect(v, KeyFn()));
    assert ImagesDiffer(w, KeyFn());
    forall i, j | 0 <= i < j < |v| ensures EventKey(v[i]) != EventKey(v[j]) {
      assert KeyFn()(v[i]) != KeyFn()(v[j]);
    }
  }

  lemma {:induction false} FilterTwice<T>(s: seq<T>, p: T -> bool, q: T -> bool)
    ensures (forall x :: x in s && q(x) ==> p(x)) ==> Filter(Filter(s, p), q) == Filter(s, q)
    ensures (forall x :: x in s && q(x) ==> !p(x)) ==> Filter(Filter(s, p), q) == []
  {
    if s == [] {
    } else {
      var init, x := s[..|s| - 1], s[|s| - 1];
      assert x in s && forall y :: y in init ==> y in s;
      FilterTwice(init, p, q);
      if p(x) { assert (Filter(init, p) + [x])[..|Filter(init, p)|] == Filter(init, p); }
    }
  }

  lemma KindLastKeepsKinds(w: seq<Event>, kind: EventKind, other: EventKind)
    ensures Filter(KindLast(w, kind), OfKind(other)) == Filter(w, OfKind(other))
  {
    FilterConcat(Filter(w, OtherThan(kind)), Filter(w, OfKind(kind)), OfKind(other));
    FilterTwice(w, OtherThan(kind), OfKind(other));
    FilterTwice(w, OfKind(kind), OfKind(other));
  }

  lemma KindLastHasLastWord(w: seq<Event>, k: RecordKey, kind: EventKind)
    requires Holds(w, k, kind) && !kind.OtherKind?
    ensures LastWord(KindLast(w, kind), k) == Some(kind)
  {
    var b := Filter(w, OfKind(kind));
    LastWordConcat(Filter(w, OtherThan(kind)), b, k);
    LastWordIsHeld(b, k);
    FilterCount(w, OfKind(kind));
    forall e ensures e in b <==> e in w && e.kind == kind {
      assert e in b <==> e in multiset(b);
      assert e in w <==> e in multiset(w);
    }
    assert Holds(b, k, kind);
  }

  /** The digests of a window fix the last word on a finding exactly when the window does not hold
      both an opening and a resolution of it. */
  lemma ToldUnlessBoth(w: seq<Event>, k: RecordKey)
    requires DistinctEvents(w)
    ensures Told(w, k) <==> !(Holds(w, k, Opened) && Holds(w, k, Closed))
  {
    LastWordIsHeld(w, k);
    if Holds(w, k, Opened) && Holds(w, k, Closed) {
      var kind := if LastWord(w, k) == Some(Opened) then Closed else Opened;
      var v := KindLast(w, kind);
      KindLastDistinct(w, kind);
      KindLastKeepsKinds(w, kind, Opened);
      KindLastKeepsKinds(w, kind, Closed);
      DigestsHideOrder(w, v);
      KindLastHasLastWord(w, k, kind);
      assert LastWord(v, k) != LastWord(w, k);
    } else {
      forall v | DigestsOf(v) == DigestsOf(w) ensures LastWord(v, k) == LastWord(w, k) {
        LastWordIsHeld(v, k);
        MentionsIffHolds(v, k, Opened);
        MentionsIffHolds(w, k, Opened);
        MentionsIffHolds(v, k, Closed);
        MentionsIffHolds(w, k, Closed);
      }
    }
  }

  // ----- when the word is the stored status -----

  /** What an empty window collects from a list of offers, were there room for all of them. */
  function Gathered(cfg: Config, events: seq<Event>): seq<Event> {
    if events == [] then []
    else
      var w, e := Gathered(cfg, events[..|events| - 1]), events[|events| - 1];
      if Admits(cfg, e) && EventKey(e) !in KeysOf(w) then w + [e] else w
  }

  lemma {:induction false} GatheredMembers(cfg: Config, events: seq<Event>)
    ensures forall e :: e in Gathered(cfg, events) ==> e in events && Admits(cfg, e)
    ensures forall e :: e in events && Admits(cfg, e) ==> EventKey(e) in KeysOf(Gathered(cfg, events))
  {
    if events == [] {
    } else {
      var init, e := events[..|events| - 1], events[|events| - 1];
      GatheredMembers(cfg, init);
      assert events == init + [e];
      OneMore(Gathered(cfg, init), e);
    }
  }

  /** The offers ended up in one window, which still waits or was flushed. */
  ghost predicate OneWindow(q: Queue, q': Queue, w: seq<Event>) {
    || (q'.flushed == q.flushed && q'.window == w)
    || (q'.flushed == q.flushed + [w] && q'.window == [])
  }

  /** If they ended up in one window, then in this one. */
  ghost predicate OnlyWindow(q: Queue, q': Queue, w: seq<Event>) {
    && |q.flushed| <= |q'.flushed| && !q'.closed
    && (|q'.flushed| == |q.flushed| ==> q'.flushed == q.flushed && q'.window == w)
    && (|q'.flushed| == |q.flushed| + 1 && q'.window == [] ==> q'.flushed == q.flushed + [w])
  }

  lemma {:induction false} OffersGather(cfg: Config, q: Queue, events: seq<Event>)
    requires q.window == [] && !q.closed
    ensures OnlyWindow(q, PerformAll(cfg, q, Offers(events)), Gathered(cfg, events))
  {
    if events == [] {
    } else {
      var init, e := events[..|events| - 1], events[|events| - 1];
      OffersGather(cfg, q, init);
      OfferNext(cfg, q, init, e);
      assert events == init + [e];
      OneMoreGathers(cfg, q, PerformAll(cfg, q, Offers(init)), Gathered(cfg, init), e);
    }
  }

  lemma OneMoreGathers(cfg: Config, q: Queue, mid: Queue, w: seq<Event>, e: Event)
    requires OnlyWindow(q, mid, w)
    ensures OnlyWindow(q, Perform(cfg, mid, Op.Enqueue(e)),
                       if Admits(cfg, e) && EventKey(e) !in KeysOf(w) then w + [e] else w)
  {
  }

  /** Events reach the dispatcher as opened or resolved, from bar-free modules. */
  ghost predicate PlainEvents(events: seq<Event>) {
    forall e :: e in events ==> !e.kind.OtherKind? && '|' !in e.moduleId
  }

  lemma GatheredKey(cfg: Config, events: seq<Event>, e: Event) returns (x: Event)
    requires PlainEvents(events) && e in events && Admits(cfg, e)
    ensures x in Gathered(cfg, events) && x.kind == e.kind
    ensures x.moduleId == e.moduleId && x.finding.fingerprint == e.finding.fingerprint
  {
    var w := Gathered(cfg, events);
    GatheredMembers(cfg, events);
    KeysOfMember(w, EventKey(e));
    var i :| 0 <= i < |w| && EventKey(w[i]) == EventKey(e);
    x := w[i];
    assert x in w;
    PlainKeysAreInjective(x, e);
  }

  lemma PlainKind(kind: EventKind)
    requires !kind.OtherKind?
    ensures '|' !in KindText(kind)
  {
  }

  lemma PlainKeysAreInjective(x: Event, e: Event)
    requires EventKey(x) == EventKey(e) && PlainEvents([x, e])
    ensures x.kind == e.kind && x.moduleId == e.moduleId && x.finding.fingerprint == e.finding.fingerprint
  {
    assert x in [x, e] && e in [x, e];
    PlainKind(x.kind);
    PlainKind(e.kind);
    KeysAreInjective(x, e);
  }

  /** What is gathered about a finding is what the filter admits. */
  lemma GatheredHolds(cfg: Config, events: seq<Event>, k: RecordKey, kind: EventKind)
    requires PlainEvents(events)
    ensures Holds(Gathered(cfg, events), k, kind) <==>
            exists e :: e in events && About(e, k) && e.kind == kind && Admits(cfg, e)
  {
    GatheredMembers(cfg, events);
    if e :| e in events && About(e, k) && e.kind == kind && Admits(cfg, e) {
      var x := GatheredKey(cfg, events, e);
    }
  }

  lemma {:induction false} LogListsKinds(backend: Backend, states: seq<State>, steps: seq<Step>, i: nat, j: nat)
    requires Run(backend, states, steps) && i <= j <= |steps|
    ensures states[i].log <= states[j].log
    ensures forall e :: e in states[j].log ==> !e.kind.OtherKind?
  {
    if j == 0 {
    } else {
      assert Leads(backend, states, steps, j - 1);
      LogListsKinds(backend, states, steps, if i == j then i - 1 else i, j - 1);
    }
  }

  /** The last event about a finding. */
  function LastAbout(events: seq<Event>, k: RecordKey): Option<Event> {
    if events == [] then None
    else if About(events[|events| - 1], k) then Some(events[|events| - 1])
    else LastAbout(events[..|events| - 1], k)
  }

  lemma {:induction false} LastAboutEnds(events: seq<Event>, k: RecordKey)
    ensures var last, kinds := LastAbout(events, k), KindsFor(events, k);
            && (last.None? <==> kinds == [])
            && (last.Some? ==> last.value in events && About(last.value, k) && last.value.kind == kinds[|kinds| - 1])
    ensures LastAbout(events, k).None? ==> forall e :: e in events ==> !About(e, k)
  {
    if events == [] {
    } else {
      LastAboutEnds(events[..|events| - 1], k);
      assert events == events[..|events| - 1] + [events[|events| - 1]];
    }
  }

  /** If one thing was said about a finding, its last event is the only one. */
  lemma {:induction false} OnlyEvent(events: seq<Event>, k: RecordKey)
    requires |KindsFor(events, k)| == 1
    ensures forall e :: e in events && About(e, k) ==> LastAbout(events, k) == Some(e)
  {
    var init, last := events[..|events| - 1], events[|events| - 1];
    assert events == init + [last];
    if About(last, k) {
      LastAboutEnds(init, k);
    } else {
      OnlyEvent(init, k);
    }
  }

  /** An opening said with no resolution before it was the only thing said, of an unopened record. */
  lemma LoneOpening(before: seq<EventKind>, said: seq<EventKind>)
    requires Alternates(before + said) && said != [] && said[|said| - 1] == Opened && Closed !in said
    ensures |said| == 1 && (before != [] ==> before[|before| - 1] == Closed)
  {
    var all := before + said;
    assert all[|all| - 1] == Opened;
    if |all| > 1 { assert all[|all| - 2] == Closed; }
  }

  /** The digests are right about a finding: listed only as opened it is unresolved, listed only as
      resolved it is resolved, not listed it is as it was. */
  ghost predicate TellsRight(digests: map<string, Digest>, k: RecordKey,
                             before: Option<Record>, after: Option<Record>)
  {
    var up, down := Mentions(digests, k, Opened), Mentions(digests, k, Closed);
    && (up && !down ==> Unresolved(after))
    && (down && !up ==> !Unresolved(after))
    && (!up && !down ==> (Unresolved(after) <==> Unresolved(before)))
  }

  /** Nothing was said, or the last thing said passes the filter, or both kinds are listed. */
  ghost predicate LastWordPasses(cfg: Config, said: seq<Event>, k: RecordKey, digests: map<string, Digest>) {
    || LastAbout(said, k).None? || Admits(cfg, LastAbout(said, k).value)
    || (Mentions(digests, k, Opened) && Mentions(digests, k, Closed))
  }

  lemma MentionsIffAdmitted(cfg: Config, said: seq<Event>, k: RecordKey, kind: EventKind)
    requires PlainEvents(said) && !kind.OtherKind?
    ensures Mentions(DigestsOf(Gathered(cfg, said)), k, kind) <==>
            exists e :: e in said && About(e, k) && e.kind == kind && Admits(cfg, e)
  {
    MentionsIffHolds(Gathered(cfg, said), k, kind);
    GatheredHolds(cfg, said, k, kind);
  }

  /** The finding was resolved in between, or this opening was all that was said of an unopened record. */
  lemma BeforeLastOpening(said: seq<Event>, k: RecordKey, before: Life, after: Life)
    requires Truthful(before) && Truthful(after) && after.kinds == before.kinds + KindsFor(said, k)
    requires LastAbout(said, k).Some? && LastAbout(said, k).value.kind == Opened
    ensures Unresolved(after.rec)
    ensures || (exists e :: e in said && About(e, k) && e.kind == Closed)
            || (!Unresolved(before.rec) && forall e :: e in said && About(e, k) ==> LastAbout(said, k) == Some(e))
  {
    var kinds := KindsFor(said, k);
    LastAboutEnds(said, k);
    CollectMember(said, KindOf(k));
    assert after.kinds[|after.kinds| - 1] == kinds[|kinds| - 1] == Opened;
    if Closed in kinds {
      var e :| e in said && KindOf(k)(e) == Some(Closed);
    } else {
      LoneOpening(before.kinds, kinds);
      OnlyEvent(said, k);
    }
  }

  /** If the last thing said is an opening the filter drops, the digests mislead unless they list both. */
  lemma DroppedOpening(cfg: Config, said: seq<Event>, k: RecordKey, before: Life, after: Life)
    requires Truthful(before) && Truthful(after) && after.kinds == before.kinds + KindsFor(said, k)
    requires PlainEvents(said) && LastAbout(said, k).Some? && !Admits(cfg, LastAbout(said, k).value)
    ensures var digests := DigestsOf(Gathered(cfg, said));
            TellsRight(digests, k, before.rec, after.rec) <==>
            Mentions(digests, k, Opened) && Mentions(digests, k, Closed)
  {
    BeforeLastOpening(said, k, before, after);
    MentionsIffAdmitted(cfg, said, k, Opened);
    MentionsIffAdmitted(cfg, said, k, Closed);
  }

  /** So a finding that was resolved and came back below the configured severity is reported as resolved
      only, while it is open. */
  lemma FilteredReopeningMisleads(cfg: Config, down: Event, up: Event, k: RecordKey, before: Life, after: Life)
    requires About(down, k) && About(up, k) && down.kind == Closed && up.kind == Opened && '|' !in k.moduleId
    requires !Admits(cfg, up)
    requires Truthful(before) && Truthful(after) && after.kinds == before.kinds + KindsFor([down, up], k)
    ensures var digests := DigestsOf(Gathered(cfg, [down, up]));
            Mentions(digests, k, Closed) && !Mentions(digests, k, Opened) && Unresolved(after.rec)
  {
    var said := [down, up];
    assert down in said && said[..1] == [down];
    MentionsIffAdmitted(cfg, said, k, Opened);
    MentionsIffAdmitted(cfg, said, k, Closed);
    BeforeLastOpening(said, k, before, after);
  }

  lemma DigestAgainstLives(cfg: Config, said: seq<Event>, k: RecordKey, before: Life, after: Life)
    requires Truthful(before) && Truthful(after) && after.kinds == before.kinds + KindsFor(said, k)
    requires PlainEvents(said)
    ensures var digests := DigestsOf(Gathered(cfg, said));
            TellsRight(digests, k, before.rec, after.rec) <==> LastWordPasses(cfg, said, k, digests)
  {
    LastAboutEnds(said, k);
    MentionsIffAdmitted(cfg, said, k, Opened);
    MentionsIffAdmitted(cfg, said, k, Closed);
    var last := LastAbout(said, k);
    if last.Some? {
      if Admits(cfg, last.value) {
        assert after.kinds[|after.kinds| - 1] == last.value.kind;
      } else {
        DroppedOpening(cfg, said, k, before, after);
      }
    }
  }

  lemma WindowIs(q: Queue, q': Queue, w: seq<Event>, x: seq<Event>)
    requires OneWindow(q, q', w) && OnlyWindow(q, q', x)
    ensures w == x
  {
    if q'.flushed == q.flushed + [w] { assert q'.flushed[|q.flushed|] == w; }
  }

  lemma RunSays(backend: Backend, owner: RecordKey -> string, states: seq<State>, steps: seq<Step>,
                k: RecordKey, i: nat, j: nat)
    requires Run(backend, states, steps) && AllDisciplined(owner, steps) && i <= j <= |steps|
    requires EditsSpareResolved(states, steps, k)
    ensures var said := Beyond(states[i].log, states[j].log);
            && Truthful(LifeAt(states[i], k)) && Truthful(LifeAt(states[j], k))
            && LifeAt(states[j], k).kinds == LifeAt(states[i], k).kinds + KindsFor(said, k)
            && forall e :: e in said ==> !e.kind.OtherKind?
  {
    var before, said := states[i].log, Beyond(states[i].log, states[j].log);
    LogListsKinds(backend, states, steps, i, j);
    assert states[j].log == before + said;
    CollectConcat(before, said, KindOf(k));
    AnnouncementsAlternate(backend, owner, states, steps, k);
  }

  /** What a run announces between two states, offered to an empty window, sent as one set of
      digests. While no edit touches the resolved record, the digests are right about it exactly when
      nothing was announced about it, or the last announcement passes the severity filter, or the
      digests list it under both kinds and so leave it open. */
  lemma DigestTellsStatus(backend: Backend, owner: RecordKey -> string, states: seq<State>, steps: seq<Step>,
                          k: RecordKey, i: nat, j: nat, cfg: Config, q: Queue, w: seq<Event>)
    requires Run(backend, states, steps) && AllDisciplined(owner, steps) && i <= j <= |steps|
    requires EditsSpareResolved(states, steps, k)
    requires q.window == [] && !q.closed
    requires var said := Beyond(states[i].log, states[j].log);
             OneWindow(q, PerformAll(cfg, q, Offers(said)), w) && forall e :: e in said ==> '|' !in e.moduleId
    ensures TellsRight(DigestsOf(w), k, At(states[i].rows, k), At(states[j].rows, k)) <==>
            LastWordPasses(cfg, Beyond(states[i].log, states[j].log), k, DigestsOf(w))
  {
    var said := Beyond(states[i].log, states[j].log);
    RunSays(backend, owner, states, steps, k, i, j);
    OffersGather(cfg, q, said);
    WindowIs(q, PerformAll(cfg, q, Offers(said)), w, Gathered(cfg, said));
    DigestAgainstLives(cfg, said, k, LifeAt(states[i], k), LifeAt(states[j], k));
  }
}
