/** What a reconcile announces: notify/bridge.go turns its report into events. */
module Announce {
  import opened Core
  import opened Seqs
  import opened Stores
  import opened Reconcile
  import opened Pointwise

  function Tagged(kind: EventKind, moduleId: string, fs: seq<Finding>): (es: seq<Event>)
    ensures |es| == |fs| && forall i :: 0 <= i < |fs| ==> es[i] == Event(kind, moduleId, fs[i])
  {
    seq(|fs|, i requires 0 <= i < |fs| => Event(kind, moduleId, fs[i]))
  }

  /** Opened findings first, then the resolved ones. */
  function Announcements(moduleId: string, res: ReconcileResult): seq<Event> {
    Tagged(Opened, moduleId, res.newlyOpen) + Tagged(Closed, moduleId, res.resolved)
  }

  predicate About(e: Event, k: RecordKey) { e.moduleId == k.moduleId && e.finding.fingerprint == k.fingerprint }

  /** What a later log has beyond an earlier one. */
  function Beyond(before: seq<Event>, after: seq<Event>): seq<Event> {
    if |before| <= |after| then after[|before|..] else []
  }

  /** The event carries the finding as the table holds it, with the status its kind says. */
  ghost predicate CarriesStored(e: Event, rows: Rows) {
    var k := RecordKey(e.moduleId, e.finding.fingerprint);
    && k in rows && rows[k].finding == e.finding
    && (e.kind == Opened || e.kind == Closed)
    && e.finding.status == if e.kind == Opened then Open else Resolved
  }

  ghost predicate AllCarryStored(es: seq<Event>, rows: Rows) {
    forall e :: e in es ==> CarriesStored(e, rows)
  }

  function KindOf(k: RecordKey): Event -> Option<EventKind> {
    (e: Event) =>
      if e.moduleId == k.moduleId && e.finding.fingerprint == k.fingerprint then Some(e.kind) else None
  }

  /** The announcements made about one record. */
  function KindsFor(log: seq<Event>, k: RecordKey): seq<EventKind> {
    Collect(log, KindOf(k))
  }

  /** Which findings of a list concern one fingerprint. */
  function KindIf(fingerprint: string, kind: EventKind): Finding -> Option<EventKind> {
    (f: Finding) => if f.fingerprint == fingerprint then Some(kind) else None
  }

  lemma {:induction false} KindsForTagged(kind: EventKind, moduleId: string, fs: seq<Finding>, k: RecordKey)
    ensures KindsFor(Tagged(kind, moduleId, fs), k)
         == if moduleId == k.moduleId then Collect(fs, KindIf(k.fingerprint, kind)) else []
  {
    if fs == [] {
    } else {
      var init := fs[..|fs| - 1];
      KindsForTagged(kind, moduleId, init, k);
      assert Tagged(kind, moduleId, fs)[..|init|] == Tagged(kind, moduleId, init);
    }
  }

  lemma OpenNoticeKey(rows: Rows, scan: Scan, a: Arrival)
    requires WellKeyed(rows)
    ensures var n := OpenNotice(rows, scan)(a);
            n.Some? <==> Accepted(a) && Announces(Previous(rows, scan, a.finding.fingerprint))
    ensures var n := OpenNotice(rows, scan)(a);
            n.Some? ==> n.value.fingerprint == a.finding.fingerprint
  {
    SightingKey(rows, scan, a);
  }

  /** A scan opens a record at most once: distinct fingerprints, one notice each. */
  lemma OpenedOnce(rows: Rows, scan: Scan, fp: string)
    requires WellKeyed(rows) && WellFormedScan(scan)
    ensures Collect(Collect(scan.reported, OpenNotice(rows, scan)), KindIf(fp, Opened))
         == if Reported(scan.reported, fp).Some? && Announces(Previous(rows, scan, fp)) then [Opened] else []
  {
    var s, f, g := scan.reported, OpenNotice(rows, scan), KindIf(fp, Opened);
    CollectChain(s, f, g);
    forall a | a in s
      ensures Chain(f, g)(a) == if FingerprintFn()(a) == Some(fp) && Announces(Previous(rows, scan, fp))
                                then Some(Opened) else None
    {
      OpenNoticeKey(rows, scan, a);
    }
    CollectSingle(s, FingerprintFn(), fp, Chain(f, g));
    FindMember(s, FingerprintFn(), fp);
  }

  function ListedFingerprint(): Record -> Option<string> {
    (r: Record) => Some(r.finding.fingerprint)
  }

  lemma ListedModule(rows: Rows, scan: Scan, listing: seq<Record>, r: Record)
    requires IsListing(rows, scan.mod.id, scan.target, listing) && r in listing
    ensures r.finding.moduleId == scan.mod.id && r.finding.target == scan.target
  {
    assert rows[KeyOf(r)] in listing;
  }

  lemma {:induction false} FingerprintsListed(rs: seq<Record>)
    ensures var fps := Collect(rs, ListedFingerprint());
            |fps| == |rs| && forall i :: 0 <= i < |rs| ==> fps[i] == rs[i].finding.fingerprint
  {
    if rs == [] {
    } else {
      FingerprintsListed(rs[..|rs| - 1]);
    }
  }

  lemma ListingDistinct(rows: Rows, scan: Scan, listing: seq<Record>)
    requires IsListing(rows, scan.mod.id, scan.target, listing)
    ensures NoDuplicates(Collect(listing, ListedFingerprint()))
  {
    FingerprintsListed(listing);
    forall i, j | 0 <= i < j < |listing|
      ensures listing[i].finding.fingerprint != listing[j].finding.fingerprint
    {
      ListedModule(rows, scan, listing, listing[i]);
      ListedModule(rows, scan, listing, listing[j]);
      assert KeyOf(listing[i]) != KeyOf(listing[j]);
    }
  }

  /** The record a listing holds under a fingerprint is the one the table holds. */
  lemma ListedIsPrevious(rows: Rows, scan: Scan, listing: seq<Record>, fp: string)
    requires WellKeyed(rows) && IsListing(rows, scan.mod.id, scan.target, listing)
    ensures Find(listing, ListedFingerprint(), fp) == Previous(rows, scan, fp)
  {
    var found := Find(listing, ListedFingerprint(), fp);
    FindMember(listing, ListedFingerprint(), fp);
    ListingDistinct(rows, scan, listing);
    if found.Some? {
      ListedModule(rows, scan, listing, found.value);
    }
    if Previous(rows, scan, fp).Some? {
      var r := Previous(rows, scan, fp).value;
      assert KeyOf(r) == RecordKey(scan.mod.id, fp) && r in listing;
      FindUnique(listing, ListedFingerprint(), r);
    }
  }

  /** A scan resolves a record at most once: it is listed at most once. */
  lemma ClosedOnce(rows: Rows, scan: Scan, listing: seq<Record>, fp: string)
    requires WellKeyed(rows) && IsListing(rows, scan.mod.id, scan.target, listing)
    ensures Collect(Collect(listing, ResolveNotice(scan)), KindIf(fp, Closed))
         == match Previous(rows, scan, fp)
            case None => []
            case Some(r) => if ResolveNotice(scan)(r).Some? then [Closed] else []
  {
    var g, h := ResolveNotice(scan), KindIf(fp, Closed);
    CollectChain(listing, g, h);
    ListingDistinct(rows, scan, listing);
    ListedIsPrevious(rows, scan, listing, fp);
    CollectSingle(listing, ListedFingerprint(), fp, Chain(g, h));
    FindMember(listing, ListedFingerprint(), fp);
  }

  /** The announcements of one call about one record are those of its transition. */
  lemma AnnouncementsArePointwise(rows: Rows, scan: Scan, listing: seq<Record>, k: RecordKey)
    requires WellKeyed(rows) && WellFormedScan(scan) && OwnFingerprints(rows, scan)
    requires IsListing(rows, scan.mod.id, scan.target, listing)
    ensures KindsFor(Announcements(scan.mod.id, Report(rows, scan, listing)), k)
         == if k.moduleId == scan.mod.id
            then Notices(scan, At(rows, k), Reported(scan.reported, k.fingerprint)) else []
  {
    KindsForResult(scan.mod.id, Report(rows, scan, listing), k);
    OpenedOnce(rows, scan, k.fingerprint);
    ClosedOnce(rows, scan, listing, k.fingerprint);
    if k.moduleId == scan.mod.id { NoticesFromPrevious(rows, scan, k); }
  }

  /** An opening carries the record as the call leaves it. */
  lemma OpenedCarriesStored(rows: Rows, scan: Scan, after: Rows, f: Finding)
    requires WellKeyed(rows) && WellFormedScan(scan) && OwnFingerprints(rows, scan)
    requires StepsPointwise(rows, scan, after) && f in Collect(scan.reported, OpenNotice(rows, scan))
    ensures CarriesStored(Event(Opened, scan.mod.id, f), after)
  {
    CollectMember(scan.reported, OpenNotice(rows, scan));
    var a :| a in scan.reported && OpenNotice(rows, scan)(a) == Some(f);
    var k := RecordKey(scan.mod.id, a.finding.fingerprint);
    SightingKey(rows, scan, a);
    ReportedIs(scan.reported, a);
    assert At(after, k) == Some(Sighted(scan, At(rows, k), a));
  }

  /** A resolution carries it too. */
  lemma ClosedCarriesStored(rows: Rows, scan: Scan, listing: seq<Record>, after: Rows, f: Finding)
    requires WellKeyed(rows) && IsListing(rows, scan.mod.id, scan.target, listing)
    requires StepsPointwise(rows, scan, after) && f in Collect(listing, ResolveNotice(scan))
    ensures CarriesStored(Event(Closed, scan.mod.id, f), after)
  {
    CollectMember(listing, ResolveNotice(scan));
    var r :| r in listing && ResolveNotice(scan)(r) == Some(f);
    ListedModule(rows, scan, listing, r);
    SeenIffReported(scan.reported, r.finding.fingerprint);
    assert rows[KeyOf(r)] == r;
    assert At(after, KeyOf(r)) == Some(Aged(scan, r));
  }

  /** Every announcement of a call carries the finding exactly as the call stores it. */
  lemma AnnouncementsCarryStored(rows: Rows, scan: Scan, listing: seq<Record>, after: Rows)
    requires WellKeyed(rows) && WellFormedScan(scan) && OwnFingerprints(rows, scan)
    requires IsListing(rows, scan.mod.id, scan.target, listing) && StepsPointwise(rows, scan, after)
    ensures AllCarryStored(Announcements(scan.mod.id, Report(rows, scan, listing)), after)
  {
    var res := Report(rows, scan, listing);
    forall e | e in Announcements(scan.mod.id, res) ensures CarriesStored(e, after) {
      if e in Tagged(Opened, scan.mod.id, res.newlyOpen) {
        OpenedCarriesStored(rows, scan, after, e.finding);
      } else {
        assert e in Tagged(Closed, scan.mod.id, res.resolved);
        ClosedCarriesStored(rows, scan, listing, after, e.finding);
      }
    }
  }

  /** The openings of a call come before its resolutions. */
  lemma OpeningsFirst(moduleId: string, res: ReconcileResult, i: nat, j: nat)
    requires i < j < |Announcements(moduleId, res)| && Announcements(moduleId, res)[j].kind == Opened
    ensures Announcements(moduleId, res)[i].kind == Opened
  {
  }

  lemma KindsForResult(m: string, res: ReconcileResult, k: RecordKey)
    ensures KindsFor(Announcements(m, res), k)
         == if m == k.moduleId
            then Collect(res.newlyOpen, KindIf(k.fingerprint, Opened))
                 + Collect(res.resolved, KindIf(k.fingerprint, Closed))
            else []
  {
    CollectConcat(Tagged(Opened, m, res.newlyOpen), Tagged(Closed, m, res.resolved), KindOf(k));
    KindsForTagged(Opened, m, res.newlyOpen, k);
    KindsForTagged(Closed, m, res.resolved, k);
  }

  lemma NoticesFromPrevious(rows: Rows, scan: Scan, k: RecordKey)
    requires WellKeyed(rows) && OwnFingerprints(rows, scan) && k.moduleId == scan.mod.id
    ensures Notices(scan, At(rows, k), Reported(scan.reported, k.fingerprint))
         == (if Reported(scan.reported, k.fingerprint).Some? && Announces(Previous(rows, scan, k.fingerprint))
             then [Opened] else [])
            + match Previous(rows, scan, k.fingerprint)
              case None => []
              case Some(r) => if ResolveNotice(scan)(r).Some? then [Closed] else []
  {
    ReportedMember(scan.reported, k.fingerprint);
    SeenIffReported(scan.reported, k.fingerprint);
    if k in rows { assert KeyOf(rows[k]) == k; }
  }

  lemma SeenIffReported(s: seq<Arrival>, fp: string)
    ensures fp in SeenIn(s) <==> Reported(s, fp).Some?
  {
    ReportedMember(s, fp);
  }

  // ----- rejected findings do not matter -----

  function AcceptedFn(): Arrival -> bool { (a: Arrival) => Accepted(a) }

  /** The scan as if the collector had never sent its malformed findings. */
  function WithoutRejected(scan: Scan): Scan {
    scan.(reported := Filter(scan.reported, AcceptedFn()))
  }

  lemma SeenWithoutRejected(s: seq<Arrival>)
    ensures SeenIn(Filter(s, AcceptedFn())) == SeenIn(s)
  {
    FilterCount(s, AcceptedFn());
    forall a: Arrival | Accepted(a) ensures a in Filter(s, AcceptedFn()) <==> a in s {
      assert a in Filter(s, AcceptedFn()) <==> a in multiset(Filter(s, AcceptedFn()));
      assert a in s <==> a in multiset(s);
    }
  }

  lemma PlanWithoutRejected(rows: Rows, scan: Scan, listing: seq<Record>)
    ensures Plan(rows, scan, listing) == Plan(rows, WithoutRejected(scan), listing)
  {
    var clean := WithoutRejected(scan);
    SeenWithoutRejected(scan.reported);
    CollectFiltered(scan.reported, AcceptedFn(), SightingWrite(rows, scan));
    CollectCongruent(clean.reported, SightingWrite(rows, scan), SightingWrite(rows, clean));
    CollectCongruent(listing, AbsenceWrite(scan), AbsenceWrite(clean));
  }

  lemma NewlyOpenWithoutRejected(rows: Rows, scan: Scan)
    ensures Collect(scan.reported, OpenNotice(rows, scan))
         == Collect(WithoutRejected(scan).reported, OpenNotice(rows, WithoutRejected(scan)))
  {
    var clean := WithoutRejected(scan);
    CollectFiltered(scan.reported, AcceptedFn(), OpenNotice(rows, scan));
    CollectCongruent(clean.reported, OpenNotice(rows, scan), OpenNotice(rows, clean));
  }

  lemma ResolvedWithoutRejected(scan: Scan, listing: seq<Record>)
    ensures Collect(listing, ResolveNotice(scan)) == Collect(listing, ResolveNotice(WithoutRejected(scan)))
  {
    SeenWithoutRejected(scan.reported);
    CollectCongruent(listing, ResolveNotice(scan), ResolveNotice(WithoutRejected(scan)));
  }

  /** Malformed findings are reported as rejected, each with its reason, and influence nothing else:
      not the upserts, not the announcements. No well-formedness is asked of the scan. */
  lemma RejectedChangeNothing(rows: Rows, scan: Scan, listing: seq<Record>)
    ensures Plan(rows, scan, listing) == Plan(rows, WithoutRejected(scan), listing)
    ensures Announcements(scan.mod.id, Report(rows, scan, listing))
         == Announcements(scan.mod.id, Report(rows, WithoutRejected(scan), listing))
    ensures forall x :: x in Report(rows, scan, listing).rejected <==>
              exists a :: a in scan.reported && ValidateForIngest(a.finding) == Some(x.error) && a.finding == x.finding
  {
    PlanWithoutRejected(rows, scan, listing);
    NewlyOpenWithoutRejected(rows, scan);
    ResolvedWithoutRejected(scan, listing);
    CollectMember(scan.reported, RejectNotice());
    forall x ensures (exists a :: a in scan.reported && RejectNotice()(a) == Some(x)) <==>
      exists a :: a in scan.reported && ValidateForIngest(a.finding) == Some(x.error) && a.finding == x.finding
    {
      if a :| a in scan.reported && ValidateForIngest(a.finding) == Some(x.error) && a.finding == x.finding {
        assert RejectNotice()(a) == Some(x);
      }
    }
  }

  // ----- order does not matter -----

  lemma ListingsArePermutations(rows: Rows, moduleId: string, target: string, a: seq<Record>, b: seq<Record>)
    requires WellKeyed(rows) && IsListing(rows, moduleId, target, a) && IsListing(rows, moduleId, target, b)
    ensures multiset(a) == multiset(b)
  {
    assert NoDuplicates(a) && NoDuplicates(b);
    forall r ensures r in a <==> r in b {
      if r in a { assert rows[KeyOf(r)] == r; }
      if r in b { assert rows[KeyOf(r)] == r; }
    }
    SameMembersSameMultiset(a, b);
  }

  lemma ReportedPermutation(s: seq<Arrival>, t: seq<Arrival>, fingerprint: string)
    requires multiset(s) == multiset(t) && NoDuplicates(Collect(s, FingerprintFn()))
    ensures NoDuplicates(Collect(t, FingerprintFn()))
    ensures Reported(s, fingerprint) == Reported(t, fingerprint)
  {
    CollectPermutation(s, t, FingerprintFn());
    NoDuplicatesCount(Collect(s, FingerprintFn()));
    NoDuplicatesCount(Collect(t, FingerprintFn()));
    ReportedMember(s, fingerprint);
    ReportedMember(t, fingerprint);
    assert forall a :: a in s <==> a in multiset(s);
    assert forall a :: a in t <==> a in multiset(t);
    if Reported(s, fingerprint).Some? {
      ReportedIs(t, Reported(s, fingerprint).value);
    }
  }

  lemma SeenPermutation(s: seq<Arrival>, t: seq<Arrival>)
    requires multiset(s) == multiset(t)
    ensures SeenIn(s) == SeenIn(t)
  {
    assert forall a :: a in s <==> a in multiset(s);
    assert forall a :: a in t <==> a in multiset(t);
  }

  lemma NewlyOpenPermutation(rows: Rows, s: Scan, t: Scan)
    requires t == s.(reported := t.reported) && multiset(s.reported) == multiset(t.reported)
    ensures multiset(Collect(s.reported, OpenNotice(rows, s))) == multiset(Collect(t.reported, OpenNotice(rows, t)))
  {
    CollectCongruent(t.reported, OpenNotice(rows, s), OpenNotice(rows, t));
    CollectPermutation(s.reported, t.reported, OpenNotice(rows, s));
  }

  lemma ResolvedPermutation(s: Scan, t: Scan, ls: seq<Record>, lt: seq<Record>)
    requires t == s.(reported := t.reported) && multiset(s.reported) == multiset(t.reported)
    requires multiset(ls) == multiset(lt)
    ensures multiset(Collect(ls, ResolveNotice(s))) == multiset(Collect(lt, ResolveNotice(t)))
  {
    SeenPermutation(s.reported, t.reported);
    CollectCongruent(lt, ResolveNotice(s), ResolveNotice(t));
    CollectPermutation(ls, lt, ResolveNotice(s));
  }

  /** Two scans that report the same findings in any order. */
  ghost predicate Reordered(s: Scan, t: Scan) {
    t == s.(reported := t.reported) && multiset(s.reported) == multiset(t.reported)
  }

  lemma ReorderedIsWellFormed(rows: Rows, s: Scan, t: Scan)
    requires Reordered(s, t) && WellFormedScan(s) && OwnFingerprints(rows, s)
    ensures WellFormedScan(t) && OwnFingerprints(rows, t)
  {
    ReportedPermutation(s.reported, t.reported, "");
    assert forall a :: a in t.reported ==> a in multiset(t.reported) && a in multiset(s.reported);
  }

  lemma TablesAgree(rows: Rows, s: Scan, t: Scan, x: Rows, y: Rows)
    requires Reordered(s, t) && WellFormedScan(s)
    requires StepsPointwise(rows, s, x) && StepsPointwise(rows, t, y)
    ensures x == y
  {
    forall k: RecordKey ensures At(x, k) == At(y, k) {
      ReportedPermutation(s.reported, t.reported, k.fingerprint);
      SameScanSameTransition(s, t, At(rows, k), Reported(s.reported, k.fingerprint));
    }
    RowsExtensional(x, y);
  }

  /** Reordering the collector's findings, the listed records, or changing the store changes
      neither the table nor the multisets reported. */
  lemma OrderIsIrrelevant(rows: Rows, b: Backend, s: Scan, ls: seq<Record>, b': Backend, t: Scan, lt: seq<Record>)
    requires WellKeyed(rows) && WellFormedScan(s) && OwnFingerprints(rows, s) && Reordered(s, t)
    requires IsListing(rows, s.mod.id, s.target, ls) && IsListing(rows, s.mod.id, s.target, lt)
    requires Applied(b, rows, Plan(rows, s, ls)).Some? && Applied(b', rows, Plan(rows, t, lt)).Some?
    ensures Applied(b, rows, Plan(rows, s, ls)) == Applied(b', rows, Plan(rows, t, lt))
    ensures multiset(Report(rows, s, ls).newlyOpen) == multiset(Report(rows, t, lt).newlyOpen)
    ensures multiset(Report(rows, s, ls).resolved) == multiset(Report(rows, t, lt).resolved)
    ensures multiset(Report(rows, s, ls).rejected) == multiset(Report(rows, t, lt).rejected)
  {
    ReorderedIsWellFormed(rows, s, t);
    ReconcileIsPointwise(b, rows, s, ls);
    ReconcileIsPointwise(b', rows, t, lt);
    TablesAgree(rows, s, t, Applied(b, rows, Plan(rows, s, ls)).value, Applied(b', rows, Plan(rows, t, lt)).value);
    ListingsArePermutations(rows, s.mod.id, s.target, ls, lt);
    NewlyOpenPermutation(rows, s, t);
    ResolvedPermutation(s, t, ls, lt);
    CollectPermutation(s.reported, t.reported, RejectNotice());
  }

  lemma SameScanSameTransition(s: Scan, t: Scan, r: Option<Record>, report: Option<Arrival>)
    requires t == s.(reported := t.reported)
    ensures Transition(s, r, report) == Transition(t, r, report)
  {
  }

  lemma RowsExtensional(x: Rows, y: Rows)
    requires forall k: RecordKey :: At(x, k) == At(y, k)
    ensures x == y
  {
    forall k | k in x ensures k in y && x[k] == y[k] { assert At(x, k) == At(y, k); }
    forall k | k in y ensures k in x { assert At(x, k) == At(y, k); }
  }
}
