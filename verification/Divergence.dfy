/** Where the two stores part: whole-record replace in store/memory.go against the conflict column
    list in store/sqlite.go, for any writes, any scan and any run. */
module Divergence {
  import opened Core
  import opened Seqs
  import opened Ulid
  import opened Stores
  import opened Reconcile
  import opened Pointwise
  import opened Announce
  import opened Lifecycle
  import opened RunProperties

  // ----- any writes -----

  function LastWrite(ws: seq<Record>, k: RecordKey): Option<Record> { Find(ws, RecordKeyFn(), k) }

  function FirstWrite(ws: seq<Record>, k: RecordKey): Option<Record> {
    if ws == [] then None
    else
      var before := FirstWrite(ws[..|ws| - 1], k);
      if before.None? && KeyOf(ws[|ws| - 1]) == k then Some(ws[|ws| - 1]) else before
  }

  /** The record a key starts from: the stored one, or else the first one written. */
  function Origin(rows: Rows, ws: seq<Record>, k: RecordKey): Option<Record> {
    if k in rows then Some(rows[k]) else FirstWrite(ws, k)
  }

  lemma {:induction false} FirstWriteMember(ws: seq<Record>, k: RecordKey)
    ensures var w := FirstWrite(ws, k); w.Some? ==> w.value in ws && KeyOf(w.value) == k
    ensures FirstWrite(ws, k).Some? <==> LastWrite(ws, k).Some?
  {
    if ws == [] {
    } else {
      FirstWriteMember(ws[..|ws| - 1], k);
    }
  }

  /** In memory the last write stands. */
  lemma {:induction false} MemoryHoldsLast(rows: Rows, ws: seq<Record>, k: RecordKey)
    ensures Applied(Memory, rows, ws).Some?
    ensures At(Applied(Memory, rows, ws).value, k) == if LastWrite(ws, k).Some? then LastWrite(ws, k) else At(rows, k)
  {
    if ws == [] {
    } else {
      MemoryHoldsLast(rows, ws[..|ws| - 1], k);
    }
  }

  /** In SQLite the last write stands over the identity of the origin. */
  lemma {:induction false} SqliteHoldsOverlay(rows: Rows, ws: seq<Record>, k: RecordKey)
    requires Applied(Sqlite, rows, ws).Some?
    ensures var last := LastWrite(ws, k);
            last.Some? ==> Origin(rows, ws, k).Some?
    ensures At(Applied(Sqlite, rows, ws).value, k)
         == match LastWrite(ws, k)
            case None => At(rows, k)
            case Some(w) => Some(Overlay(Origin(rows, ws, k).value, w))
  {
    FirstWriteMember(ws, k);
    if ws == [] {
    } else {
      FirstWriteMember(ws[..|ws| - 1], k);
      SqliteHoldsOverlay(rows, ws[..|ws| - 1], k);
    }
  }

  /** The last write of every key carries the identity the key started from. */
  ghost predicate LastKeepsIdentity(rows: Rows, ws: seq<Record>) {
    forall w :: w in ws ==>
      var origin, last := Origin(rows, ws, KeyOf(w)), LastWrite(ws, KeyOf(w));
      origin.Some? && last.Some? && SameIdentity(origin.value, last.value)
  }

  /** Writes SQLite accepts leave the two stores equal exactly when no key ends up written with
      another identity than it started from. */
  lemma StoresEqualIff(rows: Rows, ws: seq<Record>)
    requires Applied(Sqlite, rows, ws).Some?
    ensures Applied(Memory, rows, ws) == Applied(Sqlite, rows, ws) <==> LastKeepsIdentity(rows, ws)
  {
    MemoryHoldsLast(rows, ws, RecordKey("", ""));
    var mem, sql := Applied(Memory, rows, ws).value, Applied(Sqlite, rows, ws).value;
    forall k: RecordKey
      ensures At(mem, k) == At(sql, k) <==> var last := LastWrite(ws, k);
                last.Some? ==> Origin(rows, ws, k).Some? && SameIdentity(Origin(rows, ws, k).value, last.value)
    {
      MemoryHoldsLast(rows, ws, k);
      SqliteHoldsOverlay(rows, ws, k);
    }
    forall k: RecordKey ensures LastWrite(ws, k).Some? <==> exists w :: w in ws && KeyOf(w) == k {
      FindMember(ws, RecordKeyFn(), k);
      assert forall w :: RecordKeyFn()(w) == Some(KeyOf(w));
    }
    if LastKeepsIdentity(rows, ws) {
      forall k: RecordKey ensures At(mem, k) == At(sql, k) {
        if LastWrite(ws, k).Some? { var w :| w in ws && KeyOf(w) == k; }
      }
      RowsExtensional(mem, sql);
    }
    if mem == sql {
      forall w | w in ws ensures LastWrite(ws, KeyOf(w)).Some? && At(mem, KeyOf(w)) == At(sql, KeyOf(w)) {
      }
    }
  }

  // ----- fresh ids -----

  function NewIdOf(rows: Rows): Record -> Option<string> {
    (w: Record) => if KeyOf(w) in rows then None else Some(w.finding.id)
  }

  lemma FreshIdsCollected(rows: Rows, ws: seq<Record>)
    ensures var ids := Collect(ws, NewIdOf(rows));
            FreshIds(rows, ws) <==> NoDuplicates(ids) && forall id :: id in ids ==> !IdTaken(rows, id)
  {
    var f := NewIdOf(rows);
    var ids := Collect(ws, f);
    CollectDistinct(ws, f);
    CollectMember(ws, f);
    if forall id :: id in ids ==> !IdTaken(rows, id) {
      forall i | 0 <= i < |ws| && KeyOf(ws[i]) !in rows ensures !IdTaken(rows, ws[i].finding.id) {
        assert ws[i] in ws && f(ws[i]) == Some(ws[i].finding.id);
        assert ws[i].finding.id in ids;
      }
    }
    if NoDuplicates(ids) {
      forall i, j | 0 <= i < j < |ws| && KeyOf(ws[i]) !in rows && KeyOf(ws[j]) !in rows
        ensures ws[i].finding.id != ws[j].finding.id
      {
        assert f(ws[i]) != f(ws[j]);
      }
    }
    if FreshIds(rows, ws) {
      assert ImagesDiffer(ws, f);
      forall id | id in ids ensures !IdTaken(rows, id) {
        var w :| w in ws && f(w) == Some(id);
        var i :| 0 <= i < |ws| && ws[i] == w;
      }
    }
  }

  ghost predicate IdsFrom(rows: Rows, ids: seq<string>, after: Rows) {
    && (forall k :: k in rows ==> k in after && after[k].finding.id == rows[k].finding.id)
    && (forall k :: k in after && k !in rows ==> after[k].finding.id in ids)
  }

  /** Fresh ids are never refused, however often a key is written. */
  lemma {:induction false} FreshNeverRefused(rows: Rows, ws: seq<Record>)
    requires FreshIds(rows, ws)
    ensures Applied(Sqlite, rows, ws).Some?
    ensures IdsFrom(rows, Collect(ws, NewIdOf(rows)), Applied(Sqlite, rows, ws).value)
  {
    if ws == [] {
    } else {
      var init, w := ws[..|ws| - 1], ws[|ws| - 1];
      FreshIdsCollected(rows, ws);
      FreshIdsCollected(rows, init);
      DistinctPrefix(ws, NewIdOf(rows));
      assert forall id :: id in Collect(init, NewIdOf(rows)) ==> id in Collect(ws, NewIdOf(rows));
      FreshNeverRefused(rows, init);
      if KeyOf(w) !in rows { NewIdUntaken(rows, ws, Applied(Sqlite, rows, init).value); }
    }
  }

  lemma NewIdUntaken(rows: Rows, ws: seq<Record>, mid: Rows)
    requires ws != [] && FreshIds(rows, ws) && KeyOf(ws[|ws| - 1]) !in rows
    requires IdsFrom(rows, Collect(ws[..|ws| - 1], NewIdOf(rows)), mid)
    ensures !IdTaken(mid, ws[|ws| - 1].finding.id)
  {
    var init, id := ws[..|ws| - 1], ws[|ws| - 1].finding.id;
    CollectMember(init, NewIdOf(rows));
    forall k | k in mid ensures mid[k].finding.id != id {
      if k !in rows {
        var w :| w in init && NewIdOf(rows)(w) == Some(mid[k].finding.id);
        var i :| 0 <= i < |init| && ws[i] == w;
      }
    }
  }

  /** A new key written twice with fresh ids ends with another identity. */
  lemma {:induction false} RewrittenIdDiffers(rows: Rows, ws: seq<Record>, p: nat, q: nat)
    requires FreshIds(rows, ws) && p < q < |ws| && KeyOf(ws[p]) == KeyOf(ws[q]) && KeyOf(ws[p]) !in rows
    ensures var k := KeyOf(ws[p]);
            && FirstWrite(ws, k).Some? && LastWrite(ws, k).Some?
            && FirstWrite(ws, k).value.finding.id != LastWrite(ws, k).value.finding.id
  {
    var n, k := |ws| - 1, KeyOf(ws[p]);
    var init := ws[..n];
    assert init[p] == ws[p];
    FirstWriteMember(init, k);
    FindMember(init, RecordKeyFn(), k);
    if KeyOf(ws[n]) == k {
      assert init[p] in init;
      var i :| 0 <= i < n && ws[i] == FirstWrite(init, k).value;
    } else {
      RewrittenIdDiffers(rows, init, p, q);
    }
  }

  // ----- any scan -----

  /** The id minted for an arrival the engine takes for new. */
  function MintedFor(rows: Rows, scan: Scan): Arrival -> Option<string> {
    (a: Arrival) =>
      if Accepted(a) && Previous(rows, scan, a.finding.fingerprint).None?
      then Some(NewUlid(scan.now, a.entropy)) else None
  }

  ghost predicate MintsFresh(rows: Rows, scan: Scan) {
    var ids := Collect(scan.reported, MintedFor(rows, scan));
    NoDuplicates(ids) && forall id :: id in ids ==> !IdTaken(rows, id)
  }

  lemma NewIdOfSighting(rows: Rows, scan: Scan, a: Arrival)
    requires WellKeyed(rows)
    ensures var id := Chain(SightingWrite(rows, scan), NewIdOf(rows))(a);
            && (id.Some? ==> id == MintedFor(rows, scan)(a))
            && (OwnFingerprints(rows, scan) && a in scan.reported ==> id == MintedFor(rows, scan)(a))
  {
    SightingKey(rows, scan, a);
  }

  /** The ids a plan brings are those of its sightings. */
  lemma NewIdsOfPlan(rows: Rows, scan: Scan, listing: seq<Record>)
    requires IsListing(rows, scan.mod.id, scan.target, listing)
    ensures Collect(Plan(rows, scan, listing), NewIdOf(rows))
         == Collect(scan.reported, Chain(SightingWrite(rows, scan), NewIdOf(rows)))
  {
    var f := NewIdOf(rows);
    CollectConcat(Collect(scan.reported, SightingWrite(rows, scan)), Collect(listing, AbsenceWrite(scan)), f);
    CollectChain(scan.reported, SightingWrite(rows, scan), f);
    CollectChain(listing, AbsenceWrite(scan), f);
    forall r | r in listing ensures Chain(AbsenceWrite(scan), f)(r).None? { AgeingKeepsIdentity(scan, r); }
    CollectNothing(listing, Chain(AbsenceWrite(scan), f));
  }

  /** Fresh minted ids make the plan fresh, and conversely when no fingerprint is stored elsewhere. */
  lemma MintsFreshPlans(rows: Rows, scan: Scan, listing: seq<Record>)
    requires WellKeyed(rows) && IsListing(rows, scan.mod.id, scan.target, listing)
    ensures MintsFresh(rows, scan) ==> FreshIds(rows, Plan(rows, scan, listing))
    ensures OwnFingerprints(rows, scan) && FreshIds(rows, Plan(rows, scan, listing)) ==> MintsFresh(rows, scan)
  {
    var s, f, g := scan.reported, Chain(SightingWrite(rows, scan), NewIdOf(rows)), MintedFor(rows, scan);
    NewIdsOfPlan(rows, scan, listing);
    FreshIdsCollected(rows, Plan(rows, scan, listing));
    forall a ensures (f(a).Some? ==> f(a) == g(a)) && (OwnFingerprints(rows, scan) && a in s ==> f(a) == g(a)) {
      NewIdOfSighting(rows, scan, a);
    }
    if MintsFresh(rows, scan) {
      CollectFewer(s, f, g);
      CollectMember(s, f);
      CollectMember(s, g);
      assert forall id :: id in Collect(s, f) ==> id in Collect(s, g);
    }
    if OwnFingerprints(rows, scan) { CollectCongruent(s, f, g); }
  }

  /** No fingerprint that is new to the table is accepted twice. */
  ghost predicate NewOnce(rows: Rows, scan: Scan) {
    forall i, j :: 0 <= i < j < |scan.reported| && Accepted(scan.reported[i]) && Accepted(scan.reported[j])
                   && scan.reported[i].finding.fingerprint == scan.reported[j].finding.fingerprint
      ==> RecordKey(scan.mod.id, scan.reported[i].finding.fingerprint) in rows
  }

  /** A write of a new key inserts some accepted arrival. */
  lemma NewKeyInserted(rows: Rows, scan: Scan, listing: seq<Record>, w: Record) returns (i: nat)
    requires WellKeyed(rows) && IsListing(rows, scan.mod.id, scan.target, listing)
    requires w in Plan(rows, scan, listing) && KeyOf(w) !in rows
    ensures i < |scan.reported| && Accepted(scan.reported[i]) && w == Inserted(scan, scan.reported[i])
    ensures KeyOf(w) == RecordKey(scan.mod.id, scan.reported[i].finding.fingerprint)
  {
    PlanMember(rows, scan, listing, w);
    forall r | r in listing ensures AbsenceWrite(scan)(r) != Some(w) { AgeingKeepsIdentity(scan, r); }
    var a :| a in scan.reported && SightingWrite(rows, scan)(a) == Some(w);
    SightingKey(rows, scan, a);
    i :| 0 <= i < |scan.reported| && scan.reported[i] == a;
  }

  /** A write over a row of another target inserts some accepted arrival too. */
  lemma ForeignKeyInserted(rows: Rows, scan: Scan, listing: seq<Record>, w: Record)
    requires WellKeyed(rows) && IsListing(rows, scan.mod.id, scan.target, listing)
    requires w in Plan(rows, scan, listing)
    requires KeyOf(w) in rows && rows[KeyOf(w)].finding.target != scan.target
    ensures w.finding.id in Collect(scan.reported, MintedFor(rows, scan))
  {
    PlanMember(rows, scan, listing, w);
    if r :| r in listing && AbsenceWrite(scan)(r) == Some(w) {
      AgeingKeepsIdentity(scan, r);
      ListedModule(rows, scan, listing, r);
    }
    var a :| a in scan.reported && SightingWrite(rows, scan)(a) == Some(w);
    SightingKey(rows, scan, a);
    CollectMember(scan.reported, MintedFor(rows, scan));
    assert MintedFor(rows, scan)(a) == Some(w.finding.id);
  }

  lemma OwnAndOnceKeepIdentity(rows: Rows, scan: Scan, listing: seq<Record>)
    requires WellKeyed(rows) && IsListing(rows, scan.mod.id, scan.target, listing)
    requires OwnFingerprints(rows, scan) && NewOnce(rows, scan)
    ensures LastKeepsIdentity(rows, Plan(rows, scan, listing))
  {
    var ws := Plan(rows, scan, listing);
    PlanKeepsIdentity(rows, scan, listing);
    forall w | w in ws
      ensures var origin, last := Origin(rows, ws, KeyOf(w)), LastWrite(ws, KeyOf(w));
              origin.Some? && last.Some? && SameIdentity(origin.value, last.value)
    {
      var k := KeyOf(w);
      FindMember(ws, RecordKeyFn(), k);
      FirstWriteMember(ws, k);
      var last := LastWrite(ws, k).value;
      if k in rows {
        var i :| 0 <= i < |ws| && ws[i] == last;
      } else {
        var i := NewKeyInserted(rows, scan, listing, FirstWrite(ws, k).value);
        var j := NewKeyInserted(rows, scan, listing, last);
        assert i == j;
      }
    }
  }

  lemma ForeignLosesIdentity(rows: Rows, scan: Scan, listing: seq<Record>, a: Arrival)
    requires WellKeyed(rows) && IsListing(rows, scan.mod.id, scan.target, listing) && MintsFresh(rows, scan)
    requires a in scan.reported && Accepted(a)
    requires var k := RecordKey(scan.mod.id, a.finding.fingerprint); k in rows && rows[k].finding.target != scan.target
    ensures !LastKeepsIdentity(rows, Plan(rows, scan, listing))
  {
    var ws, k := Plan(rows, scan, listing), RecordKey(scan.mod.id, a.finding.fingerprint);
    var w := Sighted(scan, Previous(rows, scan, a.finding.fingerprint), a);
    SightingKey(rows, scan, a);
    PlanMember(rows, scan, listing, w);
    assert SightingWrite(rows, scan)(a) == Some(w);
    FindMember(ws, RecordKeyFn(), k);
    ForeignKeyInserted(rows, scan, listing, LastWrite(ws, k).value);
    assert !IdTaken(rows, LastWrite(ws, k).value.finding.id);
  }

  lemma RepeatLosesIdentity(rows: Rows, scan: Scan, listing: seq<Record>, i: nat, j: nat)
    requires WellKeyed(rows) && IsListing(rows, scan.mod.id, scan.target, listing) && MintsFresh(rows, scan)
    requires i < j < |scan.reported| && Accepted(scan.reported[i]) && Accepted(scan.reported[j])
    requires scan.reported[i].finding.fingerprint == scan.reported[j].finding.fingerprint
    requires RecordKey(scan.mod.id, scan.reported[i].finding.fingerprint) !in rows
    ensures !LastKeepsIdentity(rows, Plan(rows, scan, listing))
  {
    var f, ws := SightingWrite(rows, scan), Plan(rows, scan, listing);
    SightingKey(rows, scan, scan.reported[i]);
    SightingKey(rows, scan, scan.reported[j]);
    var p, q := CollectPair(scan.reported, f, i, j);
    MintsFreshPlans(rows, scan, listing);
    RewrittenIdDiffers(rows, ws, p, q);
    assert ws[p] in ws;
  }

  /** One scan with fresh ids is never refused. It leaves the two stores equal exactly when no
      accepted fingerprint is stored under another target and none that is new is accepted twice. */
  lemma ScanKeepsStoresEqualIff(rows: Rows, scan: Scan, listing: seq<Record>)
    requires WellKeyed(rows) && IsListing(rows, scan.mod.id, scan.target, listing) && MintsFresh(rows, scan)
    ensures var ws := Plan(rows, scan, listing);
            && Applied(Sqlite, rows, ws).Some?
            && (Applied(Memory, rows, ws) == Applied(Sqlite, rows, ws) <==>
                OwnFingerprints(rows, scan) && NewOnce(rows, scan))
  {
    var ws := Plan(rows, scan, listing);
    MintsFreshPlans(rows, scan, listing);
    FreshNeverRefused(rows, ws);
    StoresEqualIff(rows, ws);
    if OwnFingerprints(rows, scan) && NewOnce(rows, scan) {
      OwnAndOnceKeepIdentity(rows, scan, listing);
    } else if !OwnFingerprints(rows, scan) {
      var a :| a in scan.reported && Accepted(a)
               && var k := RecordKey(scan.mod.id, a.finding.fingerprint);
                  k in rows && rows[k].finding.target != scan.target;
      ForeignLosesIdentity(rows, scan, listing, a);
    } else {
      var i, j :| 0 <= i < j < |scan.reported| && Accepted(scan.reported[i]) && Accepted(scan.reported[j])
                  && scan.reported[i].finding.fingerprint == scan.reported[j].finding.fingerprint
                  && RecordKey(scan.mod.id, scan.reported[i].finding.fingerprint) !in rows;
      RepeatLosesIdentity(rows, scan, listing, i, j);
    }
  }

  // ----- announcements of repeated reports -----

  function Reports(fingerprint: string): Arrival -> bool {
    (a: Arrival) => Accepted(a) && a.finding.fingerprint == fingerprint
  }

  lemma OpenedPerReport(rows: Rows, scan: Scan, fp: string)
    requires WellKeyed(rows)
    ensures Collect(Collect(scan.reported, OpenNotice(rows, scan)), KindIf(fp, Opened))
         == if Announces(Previous(rows, scan, fp))
            then seq(|Filter(scan.reported, Reports(fp))|, _ => Opened) else []
  {
    var s, f, g := scan.reported, OpenNotice(rows, scan), KindIf(fp, Opened);
    CollectChain(s, f, g);
    forall a | a in s
      ensures Chain(f, g)(a) == if Reports(fp)(a) && Announces(Previous(rows, scan, fp)) then Some(Opened) else None
    {
      OpenNoticeKey(rows, scan, a);
    }
    if Announces(Previous(rows, scan, fp)) {
      CollectCounts(s, Reports(fp), Chain(f, g), Opened);
    } else {
      CollectNothing(s, Chain(f, g));
    }
  }

  lemma ReportedIsNotClosed(rows: Rows, scan: Scan, listing: seq<Record>, fp: string)
    requires WellKeyed(rows) && IsListing(rows, scan.mod.id, scan.target, listing) && fp in SeenIn(scan.reported)
    ensures Collect(Collect(listing, ResolveNotice(scan)), KindIf(fp, Closed)) == []
  {
    ClosedOnce(rows, scan, listing, fp);
    if Previous(rows, scan, fp).Some? {
      assert KeyOf(Previous(rows, scan, fp).value) == RecordKey(scan.mod.id, fp);
    }
  }

  /** A finding is announced once per accepted report, not once: each report is compared with the
      table as it was before the first. */
  lemma AnnouncedPerReport(rows: Rows, scan: Scan, listing: seq<Record>, fp: string)
    requires WellKeyed(rows) && IsListing(rows, scan.mod.id, scan.target, listing) && fp in SeenIn(scan.reported)
    ensures KindsFor(Announcements(scan.mod.id, Report(rows, scan, listing)), RecordKey(scan.mod.id, fp))
         == if Announces(Previous(rows, scan, fp))
            then seq(|Filter(scan.reported, Reports(fp))|, _ => Opened) else []
  {
    KindsForResult(scan.mod.id, Report(rows, scan, listing), RecordKey(scan.mod.id, fp));
    OpenedPerReport(rows, scan, fp);
    ReportedIsNotClosed(rows, scan, listing, fp);
  }

  // ----- any run -----

  /** Every scan of a run mints ids that are new to the table it meets. */
  ghost predicate MintsFreshThroughout(states: seq<State>, steps: seq<Step>)
    requires |states| == |steps| + 1
  {
    forall i :: 0 <= i < |steps| && steps[i].Scanned? ==> MintsFresh(states[i].rows, steps[i].scan)
  }

  lemma DisciplinedOnce(rows: Rows, scan: Scan)
    requires WellFormedScan(scan)
    ensures NewOnce(rows, scan)
  {
    CollectDistinct(scan.reported, FingerprintFn());
    forall i, j | 0 <= i < j < |scan.reported| && Accepted(scan.reported[i]) && Accepted(scan.reported[j])
      ensures scan.reported[i].finding.fingerprint != scan.reported[j].finding.fingerprint
    {
      assert FingerprintFn()(scan.reported[i]) != FingerprintFn()(scan.reported[j]);
    }
  }

  /** A memory step with fresh ids is a SQLite step. */
  lemma StepOnBoth(owner: RecordKey -> string, s: State, step: Step, s': State)
    requires WellKeyed(s.rows) && Owned(owner, s.rows) && Disciplined(owner, step)
    requires step.Scanned? ==> MintsFresh(s.rows, step.scan)
    requires Next(Memory, s, step, s')
    ensures Next(Sqlite, s, step, s')
  {
    match step
    case Scanned(scan) =>
      var listing :| ScanWith(Memory, s, scan, s', listing);
      OwnersKeepFingerprints(owner, s.rows, scan);
      DisciplinedOnce(s.rows, scan);
      ScanKeepsStoresEqualIff(s.rows, scan, listing);
      assert ScanWith(Sqlite, s, scan, s', listing);
    case ScanFailed(_, _) =>
    case Edited(k, text) =>
      EditIsPointwise(Memory, s.rows, k, text);
      EditIsPointwise(Sqlite, s.rows, k, text);
  }

  lemma FreshWhereAccepted(owner: RecordKey -> string, s: State, scan: Scan, s': State)
    requires WellKeyed(s.rows) && Owned(owner, s.rows) && Disciplined(owner, Scanned(scan))
    requires Next(Sqlite, s, Scanned(scan), s')
    ensures MintsFresh(s.rows, scan)
  {
    var listing :| ScanWith(Sqlite, s, scan, s', listing);
    OwnersKeepFingerprints(owner, s.rows, scan);
    ReconcileIsPointwise(Sqlite, s.rows, scan, listing);
    MintsFreshPlans(s.rows, scan, listing);
  }

  /** What the in-memory store goes through, SQLite can go through too, exactly when no scan mints an
      id twice or one that is already stored. */
  lemma SqliteFollowsIff(owner: RecordKey -> string, mem: seq<State>, steps: seq<Step>)
    requires Run(Memory, mem, steps) && AllDisciplined(owner, steps)
    ensures (exists sql :: Run(Sqlite, sql, steps)) <==> MintsFreshThroughout(mem, steps)
  {
    if MintsFreshThroughout(mem, steps) {
      forall i | 0 <= i < |steps| ensures Leads(Sqlite, mem, steps, i) {
        RunFollowsLives(Memory, owner, mem, steps, i);
        assert Leads(Memory, mem, steps, i);
        StepOnBoth(owner, mem[i], steps[i], mem[i + 1]);
      }
      assert Run(Sqlite, mem, steps);
    }
    if sql :| Run(Sqlite, sql, steps) {
      forall i | 0 <= i < |steps| && steps[i].Scanned? ensures MintsFresh(mem[i].rows, steps[i].scan) {
        StoresAgree(owner, mem, sql, steps, i);
        RunFollowsLives(Sqlite, owner, sql, steps, i);
        assert Leads(Sqlite, sql, steps, i);
        FreshWhereAccepted(owner, sql[i], steps[i].scan, sql[i + 1]);
      }
    }
  }
}
