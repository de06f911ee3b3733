/** Reconcile, record by record: what one call does to one key, whatever the order of the loops
    and whichever store runs underneath. */
module Pointwise {
  import opened Core
  import opened Seqs
  import opened Stores
  import opened Reconcile

  function At(rows: Rows, k: RecordKey): Option<Record> {
    if k in rows then Some(rows[k]) else None
  }

  function FingerprintFn(): Arrival -> Option<string> {
    (a: Arrival) => if Accepted(a) then Some(a.finding.fingerprint) else None
  }

  /** The accepted arrival with a given fingerprint. */
  function Reported(s: seq<Arrival>, fingerprint: string): Option<Arrival> {
    Find(s, FingerprintFn(), fingerprint)
  }

  /** The lifecycle of one record: new, refreshed, reopened, aged, resolved, or left alone. */
  function Transition(scan: Scan, prior: Option<Record>, report: Option<Arrival>): Option<Record> {
    match report
    case Some(a) => Some(Sighted(scan, prior, a))
    case None =>
      if prior.Some? && prior.value.finding.target == scan.target && Ages(prior.value)
      then Some(Aged(scan, prior.value))
      else prior
  }

  /** What one call announces about one record. */
  function Notices(scan: Scan, prior: Option<Record>, report: Option<Arrival>): seq<EventKind> {
    match report
    case Some(_) => if Announces(prior) then [Opened] else []
    case None =>
      if prior.Some? && prior.value.finding.target == scan.target && Ages(prior.value)
         && Expires(scan, prior.value)
      then [Closed]
      else []
  }

  /** The accepted findings of a scan are about its target and have distinct fingerprints. */
  ghost predicate WellFormedScan(scan: Scan) {
    && NoDuplicates(Collect(scan.reported, FingerprintFn()))
    && forall a :: a in scan.reported && Accepted(a) ==> a.finding.target == scan.target
  }

  /** No stored record of another target carries a fingerprint this scan reports. */
  ghost predicate OwnFingerprints(rows: Rows, scan: Scan) {
    forall a :: a in scan.reported && Accepted(a) ==>
      var k := RecordKey(scan.mod.id, a.finding.fingerprint);
      k in rows ==> rows[k].finding.target == scan.target
  }

  // ----- distinctness of reports -----

  lemma ReportedMember(s: seq<Arrival>, fingerprint: string)
    ensures var r := Reported(s, fingerprint);
            && (r.Some? ==> r.value in s && Accepted(r.value) && r.value.finding.fingerprint == fingerprint)
            && (r.None? ==> forall a :: a in s && Accepted(a) ==> a.finding.fingerprint != fingerprint)
  {
    FindMember(s, FingerprintFn(), fingerprint);
    assert forall a: Arrival :: Accepted(a) ==> FingerprintFn()(a) == Some(a.finding.fingerprint);
  }

  lemma ReportedIs(s: seq<Arrival>, a: Arrival)
    requires NoDuplicates(Collect(s, FingerprintFn())) && a in s && Accepted(a)
    ensures Reported(s, a.finding.fingerprint) == Some(a)
  {
    FindUnique(s, FingerprintFn(), a);
  }

  // ----- the plan writes each key at most once -----

  lemma SightingKey(rows: Rows, scan: Scan, a: Arrival)
    requires WellKeyed(rows)
    ensures KeyOf(Sighted(scan, Previous(rows, scan, a.finding.fingerprint), a))
         == RecordKey(scan.mod.id, a.finding.fingerprint)
  {
    var k := RecordKey(scan.mod.id, a.finding.fingerprint);
    if k in rows { assert KeyOf(rows[k]) == k; }
  }

  function RecordKeyFn(): Record -> Option<RecordKey> {
    (r: Record) => Some(KeyOf(r))
  }

  function FingerprintKeyFn(moduleId: string): string -> Option<RecordKey> {
    (fp: string) => Some(RecordKey(moduleId, fp))
  }

  lemma {:induction false} KeysCollected(ws: seq<Record>)
    ensures var ks := Collect(ws, RecordKeyFn());
            |ks| == |ws| && forall i :: 0 <= i < |ws| ==> ks[i] == KeyOf(ws[i])
  {
    if ws == [] {
    } else {
      KeysCollected(ws[..|ws| - 1]);
    }
  }

  lemma {:induction false} KeysOfFingerprints(fps: seq<string>, moduleId: string)
    ensures var ks := Collect(fps, FingerprintKeyFn(moduleId));
            |ks| == |fps| && forall i :: 0 <= i < |fps| ==> ks[i] == RecordKey(moduleId, fps[i])
  {
    if fps == [] {
    } else {
      KeysOfFingerprints(fps[..|fps| - 1], moduleId);
    }
  }

  /** The keys written by the first pass are the fingerprints reported, in order. */
  lemma SightingsDistinct(rows: Rows, scan: Scan)
    requires WellKeyed(rows) && WellFormedScan(scan)
    ensures DistinctKeys(Collect(scan.reported, SightingWrite(rows, scan)))
  {
    var s, f, m := scan.reported, SightingWrite(rows, scan), scan.mod.id;
    var ws, fps := Collect(s, f), Collect(s, FingerprintFn());
    forall a | a in s ensures Chain(f, RecordKeyFn())(a) == Chain(FingerprintFn(), FingerprintKeyFn(m))(a) {
      SightingKey(rows, scan, a);
    }
    CollectCongruent(s, Chain(f, RecordKeyFn()), Chain(FingerprintFn(), FingerprintKeyFn(m)));
    CollectChain(s, f, RecordKeyFn());
    CollectChain(s, FingerprintFn(), FingerprintKeyFn(m));
    KeysCollected(ws);
    KeysOfFingerprints(fps, m);
  }

  /** Each planned write is either the sighting of an arrival or the ageing of a listed record. */
  lemma PlanMember(rows: Rows, scan: Scan, listing: seq<Record>, w: Record)
    ensures w in Plan(rows, scan, listing) <==>
      || (exists a :: a in scan.reported && SightingWrite(rows, scan)(a) == Some(w))
      || (exists r :: r in listing && AbsenceWrite(scan)(r) == Some(w))
  {
    CollectMember(scan.reported, SightingWrite(rows, scan));
    CollectMember(listing, AbsenceWrite(scan));
  }

  lemma PassesDisjoint(rows: Rows, scan: Scan, a: Arrival, r: Record)
    requires WellKeyed(rows) && a in scan.reported
    requires SightingWrite(rows, scan)(a).Some? && AbsenceWrite(scan)(r).Some?
    ensures KeyOf(SightingWrite(rows, scan)(a).value) != KeyOf(AbsenceWrite(scan)(r).value)
  {
    SightingKey(rows, scan, a);
    assert a.finding.fingerprint in SeenIn(scan.reported);
  }

  lemma PlanDistinct(rows: Rows, scan: Scan, listing: seq<Record>)
    requires WellKeyed(rows) && WellFormedScan(scan)
    requires IsListing(rows, scan.mod.id, scan.target, listing)
    ensures DistinctKeys(Plan(rows, scan, listing))
  {
    var f, g := SightingWrite(rows, scan), AbsenceWrite(scan);
    var ws, xs := Collect(scan.reported, f), Collect(listing, g);
    SightingsDistinct(rows, scan);
    AgeingsDistinct(scan, listing);
    CollectMember(scan.reported, f);
    CollectMember(listing, g);
    forall i, j | 0 <= i < |ws| && 0 <= j < |xs| ensures KeyOf(ws[i]) != KeyOf(xs[j]) {
      assert ws[i] in ws && xs[j] in xs;
      var a :| a in scan.reported && f(a) == Some(ws[i]);
      var r :| r in listing && g(r) == Some(xs[j]);
      PassesDisjoint(rows, scan, a, r);
    }
  }

  lemma {:induction false} AgeingsDistinct(scan: Scan, listing: seq<Record>)
    requires DistinctKeys(listing)
    ensures DistinctKeys(Collect(listing, AbsenceWrite(scan)))
  {
    if listing == [] {
    } else {
      var init, r := listing[..|listing| - 1], listing[|listing| - 1];
      AgeingsDistinct(scan, init);
      CollectMember(init, AbsenceWrite(scan));
      var ws := Collect(init, AbsenceWrite(scan));
      forall i | 0 <= i < |ws| ensures KeyOf(ws[i]) != KeyOf(r) {
        assert ws[i] in ws;
        var q :| q in init && AbsenceWrite(scan)(q) == Some(ws[i]);
        AgeingKeepsIdentity(scan, q);
      }
      AgeingKeepsIdentity(scan, r);
    }
  }

  lemma SightingKeepsIdentity(rows: Rows, scan: Scan, a: Arrival)
    requires WellKeyed(rows) && OwnFingerprints(rows, scan)
    requires a in scan.reported && Accepted(a)
    ensures var w := Sighted(scan, Previous(rows, scan, a.finding.fingerprint), a);
            KeyOf(w) in rows ==> SameIdentity(rows[KeyOf(w)], w)
  {
    SightingKey(rows, scan, a);
  }

  lemma AgeingKeepsIdentity(scan: Scan, r: Record)
    ensures KeyOf(Aged(scan, r)) == KeyOf(r) && SameIdentity(r, Aged(scan, r))
  {
  }

  lemma PlanKeepsIdentity(rows: Rows, scan: Scan, listing: seq<Record>)
    requires WellKeyed(rows) && OwnFingerprints(rows, scan)
    requires IsListing(rows, scan.mod.id, scan.target, listing)
    ensures KeepsIdentity(rows, Plan(rows, scan, listing))
  {
    var ws := Plan(rows, scan, listing);
    forall i | 0 <= i < |ws| && KeyOf(ws[i]) in rows ensures SameIdentity(rows[KeyOf(ws[i])], ws[i]) {
      PlanMember(rows, scan, listing, ws[i]);
      if a :| a in scan.reported && SightingWrite(rows, scan)(a) == Some(ws[i]) {
        SightingKeepsIdentity(rows, scan, a);
      } else {
        var r :| r in listing && AbsenceWrite(scan)(r) == Some(ws[i]);
        AgeingKeepsIdentity(scan, r);
      }
    }
  }

  // ----- the pointwise theorem -----

  ghost predicate StepsPointwise(rows: Rows, scan: Scan, after: Rows) {
    forall k: RecordKey ::
      At(after, k) == if k.moduleId == scan.mod.id
                      then Transition(scan, At(rows, k), Reported(scan.reported, k.fingerprint))
                      else At(rows, k)
  }

  lemma WrittenKeySteps(rows: Rows, scan: Scan, listing: seq<Record>, w: Record)
    requires WellKeyed(rows) && WellFormedScan(scan) && OwnFingerprints(rows, scan)
    requires IsListing(rows, scan.mod.id, scan.target, listing)
    requires w in Plan(rows, scan, listing)
    ensures var k := KeyOf(w);
            k.moduleId == scan.mod.id
            && Transition(scan, At(rows, k), Reported(scan.reported, k.fingerprint)) == Some(w)
  {
    PlanMember(rows, scan, listing, w);
    if a :| a in scan.reported && SightingWrite(rows, scan)(a) == Some(w) {
      SightingKey(rows, scan, a);
      ReportedIs(scan.reported, a);
      assert Previous(rows, scan, a.finding.fingerprint) == At(rows, KeyOf(w));
    } else {
      var r :| r in listing && AbsenceWrite(scan)(r) == Some(w);
      ReportedMember(scan.reported, r.finding.fingerprint);
      assert KeyOf(w) == KeyOf(r) && rows[KeyOf(r)] == r;
    }
  }

  /** Conversely, a record that Transition moves is written by the plan. */
  lemma MovedKeyIsWritten(rows: Rows, scan: Scan, listing: seq<Record>, k: RecordKey)
    requires WellKeyed(rows) && WellFormedScan(scan)
    requires IsListing(rows, scan.mod.id, scan.target, listing)
    requires k.moduleId == scan.mod.id
    ensures || Transition(scan, At(rows, k), Reported(scan.reported, k.fingerprint)) == At(rows, k)
            || exists w :: w in Plan(rows, scan, listing) && KeyOf(w) == k
  {
    ReportedMember(scan.reported, k.fingerprint);
    var report := Reported(scan.reported, k.fingerprint);
    if report.Some? {
      var a := report.value;
      var w := Sighted(scan, Previous(rows, scan, k.fingerprint), a);
      SightingKey(rows, scan, a);
      assert SightingWrite(rows, scan)(a) == Some(w);
      PlanMember(rows, scan, listing, w);
    } else if k in rows && rows[k].finding.target == scan.target && Ages(rows[k]) {
      var r := rows[k];
      assert KeyOf(r) == k && r in listing;
      assert AbsenceWrite(scan)(r) == Some(Aged(scan, r));
      PlanMember(rows, scan, listing, Aged(scan, r));
    }
  }

  /** On either store and for every listing order, one call moves each record of its module by
      Transition and leaves every other record alone. SQLite fails exactly on a reused id. */
  lemma ReconcileIsPointwise(backend: Backend, rows: Rows, scan: Scan, listing: seq<Record>)
    requires WellKeyed(rows) && WellFormedScan(scan) && OwnFingerprints(rows, scan)
    requires IsListing(rows, scan.mod.id, scan.target, listing)
    ensures var done := Applied(backend, rows, Plan(rows, scan, listing));
            && (done.Some? <==> backend == Memory || FreshIds(rows, Plan(rows, scan, listing)))
            && (done.Some? ==> WellKeyed(done.value) && StepsPointwise(rows, scan, done.value))
  {
    var ws := Plan(rows, scan, listing);
    PlanDistinct(rows, scan, listing);
    PlanKeepsIdentity(rows, scan, listing);
    AppliedOverwrites(backend, rows, ws);
    var done := Applied(backend, rows, ws);
    if done.Some? {
      var after := done.value;
      forall k: RecordKey
        ensures At(after, k) == if k.moduleId == scan.mod.id
                                then Transition(scan, At(rows, k), Reported(scan.reported, k.fingerprint))
                                else At(rows, k)
      {
        if i :| 0 <= i < |ws| && KeyOf(ws[i]) == k {
          WrittenKeySteps(rows, scan, listing, ws[i]);
        } else if k.moduleId == scan.mod.id {
          MovedKeyIsWritten(rows, scan, listing, k);
        }
      }
    }
  }
}
