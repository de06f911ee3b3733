/** A scan whose reconcile stops half-way: what the store then holds, and what is never announced. */
module Aborts {
  import opened Core
  import opened Seqs
  import opened Stores
  import opened Reconcile
  import opened Pointwise
  import opened Announce
  import opened Lifecycle
  import opened RunProperties

  /** The table after the first upserts of a scan, as many as the store took before an error. */
  ghost predicate PartlyApplied(backend: Backend, rows: Rows, scan: Scan, mid: Rows) {
    exists listing, n: nat ::
      && IsListing(rows, scan.mod.id, scan.target, listing) && n <= |Plan(rows, scan, listing)|
      && Applied(backend, rows, Plan(rows, scan, listing)[..n]) == Some(mid)
  }

  /** A refused upsert leaves such a table. */
  lemma RefusedIsPartlyApplied(backend: Backend, rows: Rows, scan: Scan, listing: seq<Record>, mid: Rows)
    requires IsListing(rows, scan.mod.id, scan.target, listing)
    requires Stopped(backend, rows, Plan(rows, scan, listing), mid)
    ensures PartlyApplied(backend, rows, scan, mid)
  {
    var n: nat :| StoppedAt(backend, rows, Plan(rows, scan, listing), mid, n);
  }

  /** Each record of it is as before, or as the whole scan would have left it. */
  ghost predicate PartlyStepped(rows: Rows, scan: Scan, mid: Rows) {
    forall k: RecordKey ::
      || At(mid, k) == At(rows, k)
      || (k.moduleId == scan.mod.id
          && At(mid, k) == Transition(scan, At(rows, k), Reported(scan.reported, k.fingerprint)))
  }

  lemma AbortIsPointwise(backend: Backend, owner: RecordKey -> string, rows: Rows, scan: Scan, mid: Rows)
    requires WellKeyed(rows) && Owned(owner, rows) && Disciplined(owner, Scanned(scan))
    requires PartlyApplied(backend, rows, scan, mid)
    ensures WellKeyed(mid) && Owned(owner, mid) && PartlyStepped(rows, scan, mid)
  {
    var listing, n: nat :|
      && IsListing(rows, scan.mod.id, scan.target, listing) && n <= |Plan(rows, scan, listing)|
      && Applied(backend, rows, Plan(rows, scan, listing)[..n]) == Some(mid);
    OwnersKeepFingerprints(owner, rows, scan);
    PrefixIsPointwise(backend, rows, scan, listing, n, mid);
    forall k | k in mid ensures mid[k].finding.target == owner(k) {
      assert At(mid, k) == Some(mid[k]);
      ReportedMember(scan.reported, k.fingerprint);
    }
  }

  lemma PrefixIsPointwise(backend: Backend, rows: Rows, scan: Scan, listing: seq<Record>, n: nat, mid: Rows)
    requires WellKeyed(rows) && WellFormedScan(scan) && OwnFingerprints(rows, scan)
    requires IsListing(rows, scan.mod.id, scan.target, listing) && n <= |Plan(rows, scan, listing)|
    requires Applied(backend, rows, Plan(rows, scan, listing)[..n]) == Some(mid)
    ensures WellKeyed(mid) && PartlyStepped(rows, scan, mid)
  {
    var plan := Plan(rows, scan, listing);
    var ws := plan[..n];
    PlanDistinct(rows, scan, listing);
    PlanKeepsIdentity(rows, scan, listing);
    assert forall i :: 0 <= i < n ==> ws[i] == plan[i];
    AppliedOverwrites(backend, rows, ws);
    forall k: RecordKey
      ensures || At(mid, k) == At(rows, k)
              || (k.moduleId == scan.mod.id
                  && At(mid, k) == Transition(scan, At(rows, k), Reported(scan.reported, k.fingerprint)))
    {
      if i :| 0 <= i < n && KeyOf(ws[i]) == k {
        assert ws[i] in plan;
        WrittenKeySteps(rows, scan, listing, ws[i]);
      }
    }
  }

  /** States that follow one another, from any first one. */
  ghost predicate Continues(backend: Backend, states: seq<State>, steps: seq<Step>) {
    |states| == |steps| + 1 && forall i :: 0 <= i < |steps| ==> Leads(backend, states, steps, i)
  }

  /** Nothing was said since, and the record is unresolved; or a resolution came first. */
  predicate ClosedFirst(before: seq<EventKind>, life: Life) {
    && before <= life.kinds
    && (life.kinds == before ==> Unresolved(life.rec))
    && (|life.kinds| > |before| ==> life.kinds[|before|] == Closed)
  }

  lemma ClosedFirstStays(before: seq<EventKind>, life: Life, step: Step, k: RecordKey)
    requires ClosedFirst(before, life)
    ensures ClosedFirst(before, Live(life, step, k))
  {
  }

  lemma {:induction false} UnresolvedClosesFirst(backend: Backend, owner: RecordKey -> string, states: seq<State>,
                                                 steps: seq<Step>, k: RecordKey, i: nat)
    requires Continues(backend, states, steps) && AllDisciplined(owner, steps) && i <= |steps|
    requires WellKeyed(states[0].rows) && Owned(owner, states[0].rows) && Unresolved(At(states[0].rows, k))
    ensures WellKeyed(states[i].rows) && Owned(owner, states[i].rows)
    ensures ClosedFirst(KindsFor(states[0].log, k), LifeAt(states[i], k))
  {
    if i == 0 {
    } else {
      UnresolvedClosesFirst(backend, owner, states, steps, k, i - 1);
      assert Leads(backend, states, steps, i - 1);
      StepFollowsLives(backend, owner, states[i - 1], steps[i - 1], states[i]);
      ClosedFirstStays(KindsFor(states[0].log, k), LifeAt(states[i - 1], k), steps[i - 1], k);
    }
  }

  /** A finding that is new, or was resolved, and that a scan stores before it stops is open and
      was not announced. However the run goes on, nothing about it is announced until it is
      resolved: its opening never is. */
  lemma AbortedSightingIsNeverAnnounced(backend: Backend, owner: RecordKey -> string, rows: Rows, scan: Scan,
                                        states: seq<State>, steps: seq<Step>, k: RecordKey, i: nat)
    requires WellKeyed(rows) && Owned(owner, rows) && Disciplined(owner, Scanned(scan))
    requires Continues(backend, states, steps) && AllDisciplined(owner, steps) && i <= |steps|
    requires PartlyApplied(backend, rows, scan, states[0].rows)
    requires Announces(At(rows, k)) && At(states[0].rows, k) != At(rows, k)
    ensures k in states[0].rows && states[0].rows[k].finding.status == Open
    ensures ClosedFirst(KindsFor(states[0].log, k), LifeAt(states[i], k))
  {
    AbortIsPointwise(backend, owner, rows, scan, states[0].rows);
    UnresolvedClosesFirst(backend, owner, states, steps, k, i);
  }
}
