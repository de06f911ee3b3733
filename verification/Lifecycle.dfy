/** Whole runs of the findings store: scans that succeed or fail, and the user's status edits
    (web/server.go), over either backend and every listing order. */
module Lifecycle {
  import opened Core
  import opened Seqs
  import opened Stores
  import opened Reconcile
  import opened Pointwise
  import opened Announce

  /** The statuses a user may set. */
  function UserStatus(text: string): Option<Status> {
    if text == "acknowledged" then Some(Acknowledged)
    else if text == "suppressed" then Some(Suppressed)
    else if text == "open" then Some(Open)
    else None
  }

  function WithStatus(r: Record, s: Status): Record {
    r.(finding := r.finding.(status := s))
  }

  /** The table after a status edit; a refused edit changes nothing. */
  function EditedRows(backend: Backend, rows: Rows, k: RecordKey, text: string): Rows {
    if UserStatus(text).None? || k !in rows then rows
    else
      match Upserted(backend, rows, WithStatus(rows[k], UserStatus(text).value))
      case None => rows
      case Some(after) => after
  }

  /** handleFindingStatus, answering with the HTTP status code. */
  method HandleFindingStatus(store: Store, moduleId: string, fingerprint: string, text: string)
    returns (code: int)
    requires WellKeyed(store.rows)
    modifies store
    ensures store.rows == EditedRows(store.backend, old(store.rows), RecordKey(moduleId, fingerprint), text)
    ensures var k := RecordKey(moduleId, fingerprint);
            && (code == 200 ==>
                  && k in store.rows
                  && store.rows == old(store.rows)[k := WithStatus(old(store.rows)[k], store.rows[k].finding.status)]
                  && (text == "open" ==> store.rows[k].finding.status == Open)
                  && (text == "acknowledged" ==> store.rows[k].finding.status == Acknowledged)
                  && (text == "suppressed" ==> store.rows[k].finding.status == Suppressed))
            && (code != 200 ==> store.rows == old(store.rows))
    ensures WellKeyed(store.rows)
    ensures code == 400 <==> text !in {"open", "acknowledged", "suppressed"}
    ensures code == 404 <==> code != 400 && RecordKey(moduleId, fingerprint) !in old(store.rows)
    ensures code in {200, 400, 404}
  {
    var next := UserStatus(text);
    if next.None? { return 400; }
    var rec := store.Get(moduleId, fingerprint);
    if rec.None? { return 404; }
    EditIsPointwise(store.backend, store.rows, RecordKey(moduleId, fingerprint), text);
    var ok := store.Upsert(WithStatus(rec.value, next.value));
    return if ok then 200 else 500;
  }

  // ----- runs -----

  datatype Step =
    | Scanned(scan: Scan)
    | ScanFailed(moduleId: string, target: string)  // Collect returned an error: no reconcile
    | Edited(key: RecordKey, text: string)

  datatype State = State(rows: Rows, log: seq<Event>)

  ghost predicate ScanWith(backend: Backend, s: State, scan: Scan, s': State, listing: seq<Record>) {
    && IsListing(s.rows, scan.mod.id, scan.target, listing)
    && Applied(backend, s.rows, Plan(s.rows, scan, listing)) == Some(s'.rows)
    && s'.log == s.log + Announcements(scan.mod.id, Report(s.rows, scan, listing))
  }

  ghost predicate Next(backend: Backend, s: State, step: Step, s': State) {
    match step
    case Scanned(scan) => exists listing :: ScanWith(backend, s, scan, s', listing)
    case ScanFailed(_, _) => s' == s
    case Edited(k, text) => s' == State(EditedRows(backend, s.rows, k, text), s.log)
  }

  /** The `i`-th step leads from the `i`-th state to the one behind it. */
  ghost predicate Leads(backend: Backend, states: seq<State>, steps: seq<Step>, i: nat)
    requires |states| == |steps| + 1 && i < |steps|
  {
    Next(backend, states[i], steps[i], states[i + 1])
  }

  ghost predicate Run(backend: Backend, states: seq<State>, steps: seq<Step>) {
    && |states| == |steps| + 1
    && states[0] == State(map[], [])
    && forall i :: 0 <= i < |steps| ==> Leads(backend, states, steps, i)
  }

  /** scanOne past the semaphore: a failed collection changes nothing; a successful one reconciles
      and hands on its announcements unless the store refuses an upsert, and then it announces
      nothing and keeps what was applied before. */
  method ScanOne(engine: Engine, scan: Scan, collected: bool, ghost log: seq<Event>)
    returns (events: seq<Event>, ok: bool, ghost listing: seq<Record>)
    requires WellKeyed(engine.store.rows)
    modifies engine.store
    ensures WellKeyed(engine.store.rows)
    ensures collected ==>
      && IsListing(old(engine.store.rows), scan.mod.id, scan.target, listing)
      && var plan := Plan(old(engine.store.rows), scan, listing);
         && (ok <==> Applied(engine.store.backend, old(engine.store.rows), plan).Some?)
         && (!ok ==> events == [] && Stopped(engine.store.backend, old(engine.store.rows), plan, engine.store.rows))
    ensures !collected ==>
      && !ok && events == []
      && Next(engine.store.backend, State(old(engine.store.rows), log), ScanFailed(scan.mod.id, scan.target),
              State(engine.store.rows, log + events))
    ensures ok ==>
      Next(engine.store.backend, State(old(engine.store.rows), log), Scanned(scan),
           State(engine.store.rows, log + events))
  {
    if !collected {
      assert log + [] == log;
      return [], false, [];
    }
    ghost var before := engine.store.rows;
    var res;
    res, ok, listing := engine.Reconcile(scan);
    if !ok { return [], false, listing; }
    events := Announcements(scan.mod.id, res);
    assert ScanWith(engine.store.backend, State(before, log), scan, State(engine.store.rows, log + events), listing);
  }

  /** What the collector contract promises: a scan's findings are about its target, a scan never
      repeats a fingerprint, and a fingerprint belongs to one target. */
  ghost predicate Disciplined(owner: RecordKey -> string, step: Step) {
    step.Scanned? ==>
      && WellFormedScan(step.scan)
      && forall a :: a in step.scan.reported && Accepted(a) ==>
           owner(RecordKey(step.scan.mod.id, a.finding.fingerprint)) == step.scan.target
  }

  ghost predicate AllDisciplined(owner: RecordKey -> string, steps: seq<Step>) {
    forall i :: 0 <= i < |steps| ==> Disciplined(owner, steps[i])
  }

  // ----- one record's view of a run -----

  datatype Life = Life(rec: Option<Record>, kinds: seq<EventKind>)

  function ReportIn(step: Step, k: RecordKey): Option<Arrival>
    requires step.Scanned?
  {
    Reported(step.scan.reported, k.fingerprint)
  }

  function Live(life: Life, step: Step, k: RecordKey): Life {
    match step
    case Scanned(scan) =>
      if scan.mod.id != k.moduleId then life
      else Life(Transition(scan, life.rec, ReportIn(step, k)),
                life.kinds + Notices(scan, life.rec, ReportIn(step, k)))
    case ScanFailed(_, _) => life
    case Edited(k', text) =>
      if k' == k && UserStatus(text).Some? && life.rec.Some?
      then life.(rec := Some(WithStatus(life.rec.value, UserStatus(text).value)))
      else life
  }

  function LifeOf(steps: seq<Step>, k: RecordKey): Life {
    if steps == [] then Life(None, []) else Live(LifeOf(steps[..|steps| - 1], k), steps[|steps| - 1], k)
  }

  /** One record, and what was announced about it, as a state holds them. */
  function LifeAt(s: State, k: RecordKey): Life { Life(At(s.rows, k), KindsFor(s.log, k)) }

  ghost predicate Owned(owner: RecordKey -> string, rows: Rows) {
    forall k :: k in rows ==> rows[k].finding.target == owner(k)
  }

  lemma ScanKeepsOwners(owner: RecordKey -> string, rows: Rows, scan: Scan, after: Rows)
    requires WellKeyed(rows) && Owned(owner, rows) && Disciplined(owner, Scanned(scan))
    requires StepsPointwise(rows, scan, after)
    ensures Owned(owner, after)
  {
    forall k | k in after ensures after[k].finding.target == owner(k) {
      assert At(after, k) == Some(after[k]);
      if k.moduleId == scan.mod.id {
        ReportedMember(scan.reported, k.fingerprint);
      }
    }
  }

  lemma EditIsPointwise(backend: Backend, rows: Rows, k: RecordKey, text: string)
    requires WellKeyed(rows)
    ensures EditedRows(backend, rows, k, text)
         == if UserStatus(text).Some? && k in rows
            then rows[k := WithStatus(rows[k], UserStatus(text).value)] else rows
  {
    if UserStatus(text).Some? && k in rows {
      OverlayKeepsIdentical(rows[k], WithStatus(rows[k], UserStatus(text).value));
    }
  }

  lemma ScanFollowsLives(backend: Backend, owner: RecordKey -> string, s: State, scan: Scan, s': State)
    requires WellKeyed(s.rows) && Owned(owner, s.rows) && Disciplined(owner, Scanned(scan))
    requires Next(backend, s, Scanned(scan), s')
    ensures WellKeyed(s'.rows) && Owned(owner, s'.rows)
    ensures forall k: RecordKey :: LifeAt(s', k) == Live(LifeAt(s, k), Scanned(scan), k)
  {
    var listing :| ScanWith(backend, s, scan, s', listing);
    ReconcileIsPointwise(backend, s.rows, scan, listing);
    ScanKeepsOwners(owner, s.rows, scan, s'.rows);
    forall k: RecordKey ensures LifeAt(s', k) == Live(LifeAt(s, k), Scanned(scan), k) {
      CollectConcat(s.log, Announcements(scan.mod.id, Report(s.rows, scan, listing)), KindOf(k));
      AnnouncementsArePointwise(s.rows, scan, listing, k);
    }
  }

  /** From any state in order, one step moves every record and what was announced about it alike on
      both stores. */
  lemma StepFollowsLives(backend: Backend, owner: RecordKey -> string, s: State, step: Step, s': State)
    requires WellKeyed(s.rows) && Owned(owner, s.rows) && Disciplined(owner, step) && Next(backend, s, step, s')
    ensures WellKeyed(s'.rows) && Owned(owner, s'.rows)
    ensures forall k: RecordKey :: LifeAt(s', k) == Live(LifeAt(s, k), step, k)
  {
    match step
    case Scanned(scan) => ScanFollowsLives(backend, owner, s, scan, s');
    case ScanFailed(_, _) =>
    case Edited(k, text) => EditIsPointwise(backend, s.rows, k, text);
  }

  ghost predicate Sound(owner: RecordKey -> string, s: State, steps: seq<Step>) {
    && WellKeyed(s.rows) && Owned(owner, s.rows)
    && forall k: RecordKey :: LifeAt(s, k) == LifeOf(steps, k)
  }

  /** In every run, on either store, each record and its announcements are those its own history
      determines. */
  lemma {:induction false} RunFollowsLives(backend: Backend, owner: RecordKey -> string,
                                           states: seq<State>, steps: seq<Step>, i: nat)
    requires Run(backend, states, steps) && AllDisciplined(owner, steps) && i <= |steps|
    ensures Sound(owner, states[i], steps[..i])
  {
    if i == 0 {
    } else {
      RunFollowsLives(backend, owner, states, steps, i - 1);
      assert Leads(backend, states, steps, i - 1);
      StepFollowsLives(backend, owner, states[i - 1], steps[i - 1], states[i]);
      assert steps[..i][..i - 1] == steps[..i - 1];
      forall k: RecordKey ensures LifeAt(states[i], k) == LifeOf(steps[..i], k) {
        assert LifeAt(states[i - 1], k) == LifeOf(steps[..i - 1], k);
      }
    }
  }
}
