/** The reconcile engine: store/reconcile.go. */
module Reconcile {
  import opened Core
  import opened Seqs
  import opened Stores
  import opened Ulid

  type Entropy = e: seq<Byte> | |e| == 10 witness [0, 0, 0, 0, 0, 0, 0, 0, 0, 0]

  /** A finding as it reaches the engine, with the random bytes its id would be minted from. */
  datatype Arrival = Arrival(finding: Finding, entropy: Entropy)

  datatype Rejection = Rejection(finding: Finding, error: IngestError)

  datatype ReconcileResult = ReconcileResult(
    newlyOpen: seq<Finding>,
    resolved: seq<Finding>,
    rejected: seq<Rejection>)

  /** One call of the engine. `capEvidence` bounds oversized evidence; the model holds for any. */
  datatype Scan = Scan(
    mod: ModuleInfo,
    target: string,
    reported: seq<Arrival>,
    now: Time,
    capEvidence: Json -> Json)

  predicate Accepted(a: Arrival) {
    ValidateForIngest(a.finding).None?
  }

  function SeenIn(reported: seq<Arrival>): set<string> {
    set a | a in reported && Accepted(a) :: a.finding.fingerprint
  }

  /** The record the engine finds under a fingerprint: one of this module and target only. */
  function Previous(rows: Rows, scan: Scan, fingerprint: string): Option<Record> {
    var k := RecordKey(scan.mod.id, fingerprint);
    if k in rows && rows[k].finding.target == scan.target then Some(rows[k]) else None
  }

  function Capped(scan: Scan, f: Finding): Finding {
    f.(evidence := scan.capEvidence(f.evidence))
  }

  /** A first sighting: everything the collector sent, with the core-owned fields filled in. */
  function Inserted(scan: Scan, a: Arrival): Record {
    Record(Capped(scan, a.finding).(id := NewUlid(scan.now, a.entropy), moduleId := scan.mod.id,
                                    status := Open, firstSeen := scan.now, lastSeen := scan.now),
           0)
  }

  /** A repeat sighting: descriptive fields refreshed, absence reset, a resolved record reopened. */
  function Merged(scan: Scan, prev: Record, a: Arrival): Record {
    var f := Capped(scan, a.finding);
    var refreshed := prev.finding.(title := f.title, severity := f.severity,
                                   remediation := f.remediation, evidence := f.evidence,
                                   lastSeen := scan.now);
    Record(if prev.finding.status == Resolved
           then refreshed.(status := Open, resolvedAt := None)
           else refreshed,
           0)
  }

  function Sighted(scan: Scan, prev: Option<Record>, a: Arrival): Record {
    match prev
    case None => Inserted(scan, a)
    case Some(r) => Merged(scan, r, a)
  }

  predicate Announces(prev: Option<Record>) {
    prev.None? || prev.value.finding.status == Resolved
  }

  /** Absence counts against a record unless it is resolved or the user suppressed it. */
  predicate Ages(r: Record) {
    r.finding.status != Resolved && r.finding.status != Suppressed
  }

  predicate Expires(scan: Scan, r: Record) {
    r.absentStreak + 1 >= ResolveAfterOrDefault(scan.mod)
  }

  function Aged(scan: Scan, r: Record): Record {
    if Expires(scan, r)
    then Record(r.finding.(status := Resolved, resolvedAt := Some(scan.now)), r.absentStreak + 1)
    else r.(absentStreak := r.absentStreak + 1)
  }

  // ----- the loops, as the elements they contribute -----

  function SightingWrite(rows: Rows, scan: Scan): Arrival -> Option<Record> {
    (a: Arrival) =>
      if Accepted(a) then Some(Sighted(scan, Previous(rows, scan, a.finding.fingerprint), a)) else None
  }

  function OpenNotice(rows: Rows, scan: Scan): Arrival -> Option<Finding> {
    (a: Arrival) =>
      var prev := Previous(rows, scan, a.finding.fingerprint);
      if Accepted(a) && Announces(prev) then Some(Sighted(scan, prev, a).finding) else None
  }

  function RejectNotice(): Arrival -> Option<Rejection> {
    (a: Arrival) =>
      match ValidateForIngest(a.finding)
      case None => None
      case Some(e) => Some(Rejection(a.finding, e))
  }

  function AbsenceWrite(scan: Scan): Record -> Option<Record> {
    (r: Record) =>
      if r.finding.fingerprint !in SeenIn(scan.reported) && Ages(r) then Some(Aged(scan, r)) else None
  }

  function ResolveNotice(scan: Scan): Record -> Option<Finding> {
    (r: Record) =>
      if r.finding.fingerprint !in SeenIn(scan.reported) && Ages(r) && Expires(scan, r)
      then Some(Aged(scan, r).finding) else None
  }

  /** Every upsert of one call, in order. All of them are computed from the table as it was
      before the first. */
  function Plan(rows: Rows, scan: Scan, listing: seq<Record>): seq<Record> {
    Collect(scan.reported, SightingWrite(rows, scan)) + Collect(listing, AbsenceWrite(scan))
  }

  function Report(rows: Rows, scan: Scan, listing: seq<Record>): ReconcileResult {
    ReconcileResult(Collect(scan.reported, OpenNotice(rows, scan)),
                    Collect(listing, ResolveNotice(scan)),
                    Collect(scan.reported, RejectNotice()))
  }

  lemma SeenNext(s: seq<Arrival>, i: nat)
    requires i < |s|
    ensures SeenIn(s[..i + 1])
         == if Accepted(s[i]) then SeenIn(s[..i]) + {s[i].finding.fingerprint} else SeenIn(s[..i])
  {
    assert s[..i + 1] == s[..i] + [s[i]];
  }

  function Lookup(byFP: map<string, Record>, fingerprint: string): Option<Record> {
    if fingerprint in byFP then Some(byFP[fingerprint]) else None
  }

  /** The map by fingerprint answers as the table does. */
  ghost predicate Snapshot(byFP: map<string, Record>, rows: Rows, scan: Scan) {
    forall fp :: Lookup(byFP, fp) == Previous(rows, scan, fp)
  }

  lemma AppliedNext<T>(backend: Backend, rows: Rows, s: seq<T>, f: T -> Option<Record>, i: nat)
    requires i < |s|
    ensures Applied(backend, rows, Collect(s[..i + 1], f))
         == match Applied(backend, rows, Collect(s[..i], f))
            case None => None
            case Some(mid) => match f(s[i]) case None => Some(mid) case Some(w) => Upserted(backend, mid, w)
  {
    CollectNext(s, f, i);
  }

  class Engine {
    const store: Store

    constructor (store: Store)
      ensures this.store == store
    {
      this.store := store;
    }

    /** One arrival: reject it, insert it, or refresh what the snapshot holds. */
    method Ingest(scan: Scan, byFP: map<string, Record>, a: Arrival, ghost rows: Rows,
                  ghost writes: Arrival -> Option<Record>, ghost opens: Arrival -> Option<Finding>,
                  ghost rejects: Arrival -> Option<Rejection>)
      returns (notice: Option<Finding>, rejection: Option<Rejection>, ok: bool)
      requires writes == SightingWrite(rows, scan) && opens == OpenNotice(rows, scan) && rejects == RejectNotice()
      requires Snapshot(byFP, rows, scan)
      modifies store
      ensures rejection == rejects(a) && rejection.None? == Accepted(a)
      ensures var done := match writes(a)
                          case None => Some(old(store.rows))
                          case Some(w) => Upserted(store.backend, old(store.rows), w);
              && ok == done.Some?
              && (ok ==> store.rows == done.value && notice == opens(a))
              && (!ok ==> store.rows == old(store.rows))
      ensures old(WellKeyed(store.rows)) ==> WellKeyed(store.rows)
    {
      notice, ok := None, true;
      var invalid := ValidateForIngest(a.finding);
      if invalid.Some? {
        rejection := Some(Rejection(a.finding, invalid.value));
        return;
      }
      rejection := None;
      assert Lookup(byFP, a.finding.fingerprint) == Previous(rows, scan, a.finding.fingerprint);
      if a.finding.fingerprint !in byFP {
        var rec := Inserted(scan, a);
        ok := store.Upsert(rec);
        notice := Some(rec.finding);
      } else {
        var prev := byFP[a.finding.fingerprint];
        var merged := Merged(scan, prev, a);
        ok := store.Upsert(merged);
        notice := if prev.finding.status == Resolved then Some(merged.finding) else None;
      }
    }

    /** First pass: upsert what was reported. */
    method UpsertReported(scan: Scan, byFP: map<string, Record>)
      returns (newlyOpen: seq<Finding>, rejected: seq<Rejection>, seen: set<string>, ok: bool)
      requires WellKeyed(store.rows)
      requires Snapshot(byFP, store.rows, scan)
      modifies store
      ensures WellKeyed(store.rows)
      ensures var done := Applied(store.backend, old(store.rows),
                                  Collect(scan.reported, SightingWrite(old(store.rows), scan)));
              && ok == done.Some?
              && (ok ==>
                    && store.rows == done.value
                    && seen == SeenIn(scan.reported)
                    && newlyOpen == Collect(scan.reported, OpenNotice(old(store.rows), scan))
                    && rejected == Collect(scan.reported, RejectNotice()))
      ensures !ok ==> Stopped(store.backend, old(store.rows),
                              Collect(scan.reported, SightingWrite(old(store.rows), scan)), store.rows)
    {
      newlyOpen, rejected, seen, ok := [], [], {}, true;
      ghost var rows := store.rows;
      ghost var writes, opens, rejects := SightingWrite(rows, scan), OpenNotice(rows, scan), RejectNotice();
      for i := 0 to |scan.reported|
        invariant WellKeyed(store.rows) && ok
        invariant Applied(store.backend, rows, Collect(scan.reported[..i], writes)) == Some(store.rows)
        invariant newlyOpen == Collect(scan.reported[..i], opens)
        invariant rejected == Collect(scan.reported[..i], rejects)
        invariant seen == SeenIn(scan.reported[..i])
      {
        var a := scan.reported[i];
        var notice, rejection;
        notice, rejection, ok := Ingest(scan, byFP, a, rows, writes, opens, rejects);
        AppliedNext(store.backend, rows, scan.reported, writes, i);
        if !ok {
          AbortStays(store.backend, rows, scan.reported, writes, i, store.rows);
          return;
        }
        CollectNext(scan.reported, opens, i);
        CollectNext(scan.reported, rejects, i);
        SeenNext(scan.reported, i);
        newlyOpen := if notice.Some? then newlyOpen + [notice.value] else newlyOpen;
        rejected := if rejection.Some? then rejected + [rejection.value] else rejected;
        seen := if rejection.None? then seen + {a.finding.fingerprint} else seen;
      }
      assert scan.reported[..|scan.reported|] == scan.reported;
    }

    /** One listed record: leave it, or count the absence and resolve it once the count is reached. */
    method AgeOne(scan: Scan, r: Record, seen: set<string>,
                  ghost writes: Record -> Option<Record>, ghost resolves: Record -> Option<Finding>)
      returns (notice: Option<Finding>, ok: bool)
      requires seen == SeenIn(scan.reported) && writes == AbsenceWrite(scan) && resolves == ResolveNotice(scan)
      modifies store
      ensures var done := match writes(r)
                          case None => Some(old(store.rows))
                          case Some(w) => Upserted(store.backend, old(store.rows), w);
              && ok == done.Some?
              && (ok ==> store.rows == done.value && notice == resolves(r))
              && (!ok ==> store.rows == old(store.rows))
      ensures old(WellKeyed(store.rows)) ==> WellKeyed(store.rows)
    {
      notice, ok := None, true;
      if r.finding.fingerprint in seen || r.finding.status == Resolved || r.finding.status == Suppressed {
        return;
      }
      var aged := r.(absentStreak := r.absentStreak + 1);
      if aged.absentStreak >= ResolveAfterOrDefault(scan.mod) {
        aged := aged.(finding := aged.finding.(status := Resolved, resolvedAt := Some(scan.now)));
        notice := Some(aged.finding);
      }
      ok := store.Upsert(aged);
    }

    /** Second pass: age what was not reported. */
    method AgeAbsent(scan: Scan, existing: seq<Record>, seen: set<string>)
      returns (resolved: seq<Finding>, ok: bool)
      requires WellKeyed(store.rows) && seen == SeenIn(scan.reported)
      modifies store
      ensures WellKeyed(store.rows)
      ensures var done := Applied(store.backend, old(store.rows), Collect(existing, AbsenceWrite(scan)));
              && ok == done.Some?
              && (ok ==> store.rows == done.value && resolved == Collect(existing, ResolveNotice(scan)))
      ensures !ok ==> Stopped(store.backend, old(store.rows), Collect(existing, AbsenceWrite(scan)), store.rows)
    {
      resolved, ok := [], true;
      ghost var rows := store.rows;
      ghost var writes, resolves := AbsenceWrite(scan), ResolveNotice(scan);
      for i := 0 to |existing|
        invariant WellKeyed(store.rows) && ok
        invariant Applied(store.backend, rows, Collect(existing[..i], writes)) == Some(store.rows)
        invariant resolved == Collect(existing[..i], resolves)
      {
        var notice;
        notice, ok := AgeOne(scan, existing[i], seen, writes, resolves);
        AppliedNext(store.backend, rows, existing, writes, i);
        if !ok {
          AbortStays(store.backend, rows, existing, writes, i, store.rows);
          return;
        }
        CollectNext(existing, resolves, i);
        resolved := if notice.Some? then resolved + [notice.value] else resolved;
      }
      assert existing[..|existing|] == existing;
    }

    /** Reconcile. The result and the new table are those of the plan for some order of the
        listed records; the call fails exactly when some upsert of that plan is refused, and then
        the table holds the upserts before it. */
    method Reconcile(scan: Scan) returns (res: ReconcileResult, ok: bool, ghost listing: seq<Record>)
      requires WellKeyed(store.rows)
      modifies store
      ensures WellKeyed(store.rows)
      ensures IsListing(old(store.rows), scan.mod.id, scan.target, listing)
      ensures var done := Applied(store.backend, old(store.rows), Plan(old(store.rows), scan, listing));
              && ok == done.Some?
              && (ok ==> store.rows == done.value && res == Report(old(store.rows), scan, listing))
      ensures !ok ==> Stopped(store.backend, old(store.rows), Plan(old(store.rows), scan, listing), store.rows)
    {
      ghost var rows := store.rows;
      var existing := store.ListByTarget(scan.mod.id, scan.target);
      listing := existing;
      var byFP: map<string, Record> := map[];
      for i := 0 to |existing|
        invariant forall fp :: fp in byFP <==> exists j :: 0 <= j < i && existing[j].finding.fingerprint == fp
        invariant forall fp :: fp in byFP ==> byFP[fp] in existing && byFP[fp].finding.fingerprint == fp
      {
        byFP := byFP[existing[i].finding.fingerprint := existing[i]];
      }
      SnapshotIsPrevious(rows, scan, existing, byFP);
      AppliedConcat(store.backend, rows, Collect(scan.reported, SightingWrite(rows, scan)),
                    Collect(existing, AbsenceWrite(scan)));
      var newlyOpen, rejected, seen, passed := UpsertReported(scan, byFP);
      res, ok := ReconcileResult(newlyOpen, [], rejected), passed;
      ghost var ws, xs := Collect(scan.reported, SightingWrite(rows, scan)), Collect(existing, AbsenceWrite(scan));
      if passed {
        ghost var start := store.rows;
        var resolved;
        resolved, ok := AgeAbsent(scan, existing, seen);
        res := ReconcileResult(newlyOpen, resolved, rejected);
        if !ok { StoppedLater(store.backend, rows, ws, xs, start, store.rows); }
      } else {
        StoppedEarlier(store.backend, rows, ws, xs, store.rows);
      }
    }
  }

  /** A refused upsert makes the whole plan fail there. */
  lemma AbortStays<T>(backend: Backend, rows: Rows, s: seq<T>, f: T -> Option<Record>, i: nat, mid: Rows)
    requires i < |s| && f(s[i]).Some?
    requires Applied(backend, rows, Collect(s[..i], f)) == Some(mid)
    requires Upserted(backend, mid, f(s[i]).value).None?
    ensures Applied(backend, rows, Collect(s, f)).None?
    ensures Stopped(backend, rows, Collect(s, f), mid)
  {
    CollectNext(s, f, i);
    CollectConcat(s[..i + 1], s[i + 1..], f);
    assert s == s[..i + 1] + s[i + 1..];
    StoppedInside(backend, rows, Collect(s[..i], f), f(s[i]).value, Collect(s[i + 1..], f), mid);
  }

  /** The map built from the listing answers as the table does. */
  lemma SnapshotIsPrevious(rows: Rows, scan: Scan, existing: seq<Record>, byFP: map<string, Record>)
    requires WellKeyed(rows) && IsListing(rows, scan.mod.id, scan.target, existing)
    requires forall fp :: fp in byFP <==> exists j :: 0 <= j < |existing| && existing[j].finding.fingerprint == fp
    requires forall fp :: fp in byFP ==> byFP[fp] in existing && byFP[fp].finding.fingerprint == fp
    ensures Snapshot(byFP, rows, scan)
  {
    forall fp ensures Lookup(byFP, fp) == Previous(rows, scan, fp) {
      var k := RecordKey(scan.mod.id, fp);
      if fp in byFP {
        var r := byFP[fp];
        assert rows[KeyOf(r)] == r && rows[KeyOf(r)] in existing;
        assert KeyOf(r) == k;
      }
      if Previous(rows, scan, fp).Some? {
        assert rows[k] in existing;
        var j :| 0 <= j < |existing| && existing[j] == rows[k];
        assert existing[j].finding.fingerprint == fp;
      }
    }
  }
}
