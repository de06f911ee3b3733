/** What holds over every run of scans and edits. */
module RunProperties {
  import opened Core
  import opened Seqs
  import opened Stores
  import opened Reconcile
  import opened Pointwise
  import opened Announce
  import opened Lifecycle
  import opened Ulid

  // ----- the stored record against the whole scan history -----

  /** For each successful scan of one target, oldest first: was the finding (validly) there? */
  function Appearances(steps: seq<Step>, k: RecordKey, target: string): seq<bool> {
    if steps == [] then []
    else
      var rest, step := Appearances(steps[..|steps| - 1], k, target), steps[|steps| - 1];
      if step.Scanned? && step.scan.mod.id == k.moduleId && step.scan.target == target
      then rest + [ReportIn(step, k).Some?]
      else rest
  }

  /** Scans since the last appearance. */
  function Missed(h: seq<bool>): nat {
    if h == [] || h[|h| - 1] then 0 else 1 + Missed(h[..|h| - 1])
  }

  ghost predicate SeenWithin(h: seq<bool>, n: int) {
    exists i :: 0 <= i < |h| && |h| - n <= i && h[i]
  }

  lemma {:induction false} MissedMeaning(h: seq<bool>, n: int)
    requires true in h && 1 <= n
    ensures SeenWithin(h, n) <==> Missed(h) < n
  {
    var last := |h| - 1;
    if h[last] {
      assert SeenWithin(h, n);
    } else {
      var init := h[..last];
      assert h == init + [false];
      assert true in init;
      if n == 1 {
      } else {
        MissedMeaning(init, n - 1);
        if SeenWithin(init, n - 1) {
          var i :| 0 <= i < |init| && |init| - (n - 1) <= i && init[i];
          assert h[i];
        }
        if SeenWithin(h, n) {
          var i :| 0 <= i < |h| && |h| - n <= i && h[i];
          assert init[i];
        }
      }
    }
  }

  /** No edit of the record goes through. */
  ghost predicate NeverEdited(steps: seq<Step>, k: RecordKey) {
    forall i :: 0 <= i < |steps| && steps[i].Edited? && UserStatus(steps[i].text).Some? ==> steps[i].key != k
  }

  ghost predicate Threshold(steps: seq<Step>, moduleId: string, n: int) {
    forall i :: 0 <= i < |steps| && steps[i].Scanned? && steps[i].scan.mod.id == moduleId
      ==> ResolveAfterOrDefault(steps[i].scan.mod) == n
  }

  /** A record agrees with a history: present iff ever seen, with the streak and status it earns. */
  ghost predicate Matches(rec: Option<Record>, target: string, h: seq<bool>, n: int) {
    && (rec.Some? <==> true in h)
    && (rec.Some? ==>
          && rec.value.finding.target == target
          && rec.value.absentStreak == (if Missed(h) < n then Missed(h) else n)
          && rec.value.finding.status == (if Missed(h) < n then Open else Resolved))
  }

  lemma MatchesAfterScan(rec: Option<Record>, h: seq<bool>, n: int, scan: Scan, report: Option<Arrival>)
    requires 1 <= n == ResolveAfterOrDefault(scan.mod) && Matches(rec, scan.target, h, n)
    requires report.Some? ==> report.value.finding.target == scan.target
    ensures Matches(Transition(scan, rec, report), scan.target, h + [report.Some?], n)
  {
    var h' := h + [report.Some?];
    assert h'[..|h'| - 1] == h;
    assert true in h' <==> report.Some? || true in h;
  }

  lemma {:induction false} LifeMatches(owner: RecordKey -> string, steps: seq<Step>, k: RecordKey, n: int)
    requires AllDisciplined(owner, steps) && NeverEdited(steps, k) && Threshold(steps, k.moduleId, n) && 1 <= n
    ensures Matches(LifeOf(steps, k).rec, owner(k), Appearances(steps, k, owner(k)), n)
  {
    if steps == [] {
    } else {
      var init, step := steps[..|steps| - 1], steps[|steps| - 1];
      assert AllDisciplined(owner, init) && NeverEdited(init, k) && Threshold(init, k.moduleId, n);
      LifeMatches(owner, init, k, n);
      assert Disciplined(owner, step);
      if step.Scanned? && step.scan.mod.id == k.moduleId {
        ReportedMember(step.scan.reported, k.fingerprint);
        if step.scan.target == owner(k) {
          MatchesAfterScan(LifeOf(init, k).rec, Appearances(init, k, owner(k)), n, step.scan, ReportIn(step, k));
        }
      }
    }
  }

  /** A record the user never touched is open iff the finding appeared in one of the last N
      successful scans of its target, resolved otherwise; its streak is the scans missed, up to N. */
  lemma OpenIffSeenRecently(backend: Backend, owner: RecordKey -> string, states: seq<State>,
                            steps: seq<Step>, k: RecordKey, n: int)
    requires Run(backend, states, steps) && AllDisciplined(owner, steps)
    requires NeverEdited(steps, k) && Threshold(steps, k.moduleId, n) && 1 <= n
    ensures var h := Appearances(steps, k, owner(k));
            var rows := states[|steps|].rows;
            && (k in rows <==> true in h)
            && (k in rows ==>
                  && (rows[k].finding.status == Open <==> SeenWithin(h, n))
                  && (rows[k].finding.status == Resolved <==> !SeenWithin(h, n))
                  && rows[k].absentStreak == (if Missed(h) < n then Missed(h) else n))
  {
    RunFollowsLives(backend, owner, states, steps, |steps|);
    assert steps[..|steps|] == steps;
    assert Life(At(states[|steps|].rows, k), KindsFor(states[|steps|].log, k)) == LifeOf(steps, k);
    LifeMatches(owner, steps, k, n);
    if k in states[|steps|].rows { MissedMeaning(Appearances(steps, k, owner(k)), n); }
  }

  // ----- the stored description against the whole history -----

  datatype Sighting = Sighting(scan: Scan, arrival: Arrival)

  /** Every accepted report of one finding, oldest first. */
  function Sightings(steps: seq<Step>, k: RecordKey): seq<Sighting> {
    if steps == [] then []
    else
      var rest, step := Sightings(steps[..|steps| - 1], k), steps[|steps| - 1];
      if step.Scanned? && step.scan.mod.id == k.moduleId && ReportIn(step, k).Some?
      then rest + [Sighting(step.scan, ReportIn(step, k).value)]
      else rest
  }

  /** The core-owned fields a first sighting fixes for good. */
  predicate BornOf(f: Finding, k: RecordKey, first: Sighting) {
    && f.moduleId == k.moduleId && f.fingerprint == k.fingerprint
    && f.id == NewUlid(first.scan.now, first.arrival.entropy)
    && f.firstSeen == first.scan.now
    && f.target == first.arrival.finding.target
    && f.check == first.arrival.finding.check
    && f.groupId == first.arrival.finding.groupId
  }

  /** The descriptive fields, which follow the latest sighting. */
  predicate DescribedBy(f: Finding, last: Sighting) {
    && f.lastSeen == last.scan.now
    && f.title == last.arrival.finding.title
    && f.severity == last.arrival.finding.severity
    && f.remediation == last.arrival.finding.remediation
    && f.evidence == last.scan.capEvidence(last.arrival.finding.evidence)
  }

  ghost predicate Recounts(rec: Option<Record>, k: RecordKey, s: seq<Sighting>) {
    && (rec.Some? <==> s != [])
    && (rec.Some? ==> BornOf(rec.value.finding, k, s[0]) && DescribedBy(rec.value.finding, s[|s| - 1]))
  }

  lemma {:induction false} LifeRecounts(steps: seq<Step>, k: RecordKey)
    ensures Recounts(LifeOf(steps, k).rec, k, Sightings(steps, k))
  {
    if steps == [] {
    } else {
      var init, step := steps[..|steps| - 1], steps[|steps| - 1];
      LifeRecounts(init, k);
      if step.Scanned? { ReportedMember(step.scan.reported, k.fingerprint); }
    }
  }

  /** Whatever the user does, a record's identity is that of its first sighting and its description
      that of its latest one, and it exists iff it was ever sighted. */
  lemma RecordsRecountTheirHistory(backend: Backend, owner: RecordKey -> string, states: seq<State>,
                                   steps: seq<Step>, k: RecordKey)
    requires Run(backend, states, steps) && AllDisciplined(owner, steps)
    ensures Recounts(At(states[|steps|].rows, k), k, Sightings(steps, k))
  {
    RunFollowsLives(backend, owner, states, steps, |steps|);
    assert steps[..|steps|] == steps;
    assert Life(At(states[|steps|].rows, k), KindsFor(states[|steps|].log, k)) == LifeOf(steps, k);
    LifeRecounts(steps, k);
  }

  // ----- announcements against the table -----

  /** Whatever a step of a run announces is the finding as the table holds it after that step, an
      opening with status open and a resolution with status resolved. */
  lemma AnnouncedAsStored(backend: Backend, owner: RecordKey -> string, states: seq<State>, steps: seq<Step>, i: nat)
    requires Run(backend, states, steps) && AllDisciplined(owner, steps) && i < |steps|
    ensures states[i].log <= states[i + 1].log
    ensures AllCarryStored(Beyond(states[i].log, states[i + 1].log), states[i + 1].rows)
  {
    RunFollowsLives(backend, owner, states, steps, i);
    assert Leads(backend, states, steps, i);
    var s, step, s' := states[i], steps[i], states[i + 1];
    if step.Scanned? {
      var listing :| ScanWith(backend, s, step.scan, s', listing);
      OwnersKeepFingerprints(owner, s.rows, step.scan);
      ReconcileIsPointwise(backend, s.rows, step.scan, listing);
      AnnouncementsCarryStored(s.rows, step.scan, listing, s'.rows);
      assert Beyond(s.log, s'.log) == Announcements(step.scan.mod.id, Report(s.rows, step.scan, listing));
    }
  }

  // ----- announcements against status -----

  ghost predicate Alternates(kinds: seq<EventKind>) {
    forall i :: 0 <= i < |kinds| ==> kinds[i] == if i % 2 == 0 then Opened else Closed
  }

  predicate Unresolved(rec: Option<Record>) {
    rec.Some? && rec.value.finding.status != Resolved
  }

  /** Announcements alternate, starting with opened, and the last word is the stored status. */
  ghost predicate Truthful(life: Life) {
    && Alternates(life.kinds)
    && (life.kinds != [] && life.kinds[|life.kinds| - 1] == Opened <==> Unresolved(life.rec))
  }

  /** An accepted edit of a record that is resolved at that moment. */
  predicate RevivesByHand(life: Life, step: Step, k: RecordKey) {
    && step.Edited? && step.key == k && UserStatus(step.text).Some?
    && life.rec.Some? && life.rec.value.finding.status == Resolved
  }

  /** One step keeps the announcements truthful unless it edits a resolved record, and such an
      edit always breaks them. */
  lemma TruthfulStep(life: Life, step: Step, k: RecordKey)
    requires Truthful(life)
    ensures Truthful(Live(life, step, k)) <==> !RevivesByHand(life, step, k)
  {
    if step.Scanned? && step.scan.mod.id == k.moduleId {
      ScanStaysTruthful(life, step.scan, ReportIn(step, k));
    }
  }

  lemma ScanStaysTruthful(life: Life, scan: Scan, report: Option<Arrival>)
    requires Truthful(life)
    ensures Truthful(Life(Transition(scan, life.rec, report), life.kinds + Notices(scan, life.rec, report)))
  {
    var n := Notices(scan, life.rec, report);
    assert n == [] || n == [Opened] || n == [Closed];
    assert n == [Opened] ==> !Unresolved(life.rec);
    assert n == [Closed] ==> Unresolved(life.rec);
    assert Unresolved(life.rec) <==> |life.kinds| % 2 == 1;
  }

  ghost predicate AlwaysTruthful(states: seq<State>, k: RecordKey) {
    forall i :: 0 <= i < |states| ==> Truthful(Life(At(states[i].rows, k), KindsFor(states[i].log, k)))
  }

  ghost predicate EditsSpareResolved(states: seq<State>, steps: seq<Step>, k: RecordKey)
    requires |states| == |steps| + 1
  {
    forall i :: 0 <= i < |steps| && steps[i].Edited? && steps[i].key == k
                && UserStatus(steps[i].text).Some? && k in states[i].rows
      ==> states[i].rows[k].finding.status != Resolved
  }

  lemma {:induction false} TruthfulUpTo(backend: Backend, owner: RecordKey -> string, states: seq<State>,
                                        steps: seq<Step>, k: RecordKey, i: nat)
    requires Run(backend, states, steps) && AllDisciplined(owner, steps) && i <= |steps|
    requires EditsSpareResolved(states, steps, k)
    ensures Truthful(LifeOf(steps[..i], k))
  {
    if i == 0 {
    } else {
      TruthfulUpTo(backend, owner, states, steps, k, i - 1);
      RunFollowsLives(backend, owner, states, steps, i - 1);
      assert steps[..i][..i - 1] == steps[..i - 1];
      assert Life(At(states[i - 1].rows, k), KindsFor(states[i - 1].log, k)) == LifeOf(steps[..i - 1], k);
      TruthfulStep(LifeOf(steps[..i - 1], k), steps[i - 1], k);
    }
  }

  /** Over a whole run, a fingerprint's announcements strictly alternate and end on the stored
      status if and only if no user edit ever touches the record while it is resolved. */
  lemma AnnouncementsAlternate(backend: Backend, owner: RecordKey -> string, states: seq<State>,
                               steps: seq<Step>, k: RecordKey)
    requires Run(backend, states, steps) && AllDisciplined(owner, steps)
    ensures AlwaysTruthful(states, k) <==> EditsSpareResolved(states, steps, k)
  {
    if EditsSpareResolved(states, steps, k) {
      forall i | 0 <= i < |states|
        ensures Truthful(Life(At(states[i].rows, k), KindsFor(states[i].log, k)))
      {
        TruthfulUpTo(backend, owner, states, steps, k, i);
        RunFollowsLives(backend, owner, states, steps, i);
      }
    }
    if AlwaysTruthful(states, k) {
      forall i | 0 <= i < |steps| && steps[i].Edited? && steps[i].key == k
                 && UserStatus(steps[i].text).Some? && k in states[i].rows
        ensures states[i].rows[k].finding.status != Resolved
      {
        TruthAroundStep(backend, owner, states, steps, k, i);
      }
    }
  }

  lemma TruthAroundStep(backend: Backend, owner: RecordKey -> string, states: seq<State>,
                        steps: seq<Step>, k: RecordKey, i: nat)
    requires Run(backend, states, steps) && AllDisciplined(owner, steps) && i < |steps|
    requires AlwaysTruthful(states, k)
    ensures !RevivesByHand(Life(At(states[i].rows, k), KindsFor(states[i].log, k)), steps[i], k)
  {
    RunFollowsLives(backend, owner, states, steps, i);
    RunFollowsLives(backend, owner, states, steps, i + 1);
    var before := Life(At(states[i].rows, k), KindsFor(states[i].log, k));
    var after := Life(At(states[i + 1].rows, k), KindsFor(states[i + 1].log, k));
    assert before == LifeOf(steps[..i], k) && after == LifeOf(steps[..i + 1], k);
    assert steps[..i + 1][..i] == steps[..i];
    TruthfulStep(before, steps[i], k);
  }

  /** A resolved record has reached its threshold, and a resolution was the last thing announced
      about it. */
  predicate ResolvedInFull(life: Life, n: int) {
    life.rec.Some? && life.rec.value.finding.status == Resolved ==>
      life.rec.value.absentStreak >= n && life.kinds != [] && life.kinds[|life.kinds| - 1] == Closed
  }

  lemma {:induction false} ResolvedRecordsAreAnnounced(steps: seq<Step>, k: RecordKey, n: int)
    requires Threshold(steps, k.moduleId, n)
    ensures ResolvedInFull(LifeOf(steps, k), n)
  {
    if steps == [] {
    } else {
      var init := steps[..|steps| - 1];
      assert Threshold(init, k.moduleId, n);
      ResolvedRecordsAreAnnounced(init, k, n);
    }
  }

  lemma LifeNext(steps: seq<Step>, k: RecordKey, i: nat)
    requires i < |steps|
    ensures LifeOf(steps[..i + 1], k) == Live(LifeOf(steps[..i], k), steps[i], k)
  {
    assert steps[..i + 1][..i] == steps[..i];
  }

  /** A step that neither edits a record nor scans its target. */
  predicate Untouched(owner: RecordKey -> string, step: Step, k: RecordKey) {
    && (step.Edited? && UserStatus(step.text).Some? ==> step.key != k)
    && (step.Scanned? && step.scan.mod.id == k.moduleId ==> step.scan.target != owner(k))
  }

  lemma {:induction false} UntouchedLifeStays(owner: RecordKey -> string, steps: seq<Step>, k: RecordKey, i: nat)
    requires AllDisciplined(owner, steps) && i <= |steps|
    requires forall l :: i <= l < |steps| ==> Untouched(owner, steps[l], k)
    requires var rec := LifeOf(steps[..i], k).rec; rec.Some? ==> rec.value.finding.target == owner(k)
    ensures LifeOf(steps, k) == LifeOf(steps[..i], k)
  {
    if i == |steps| {
      assert steps[..i] == steps;
    } else {
      var init, step := steps[..|steps| - 1], steps[|steps| - 1];
      assert init[..i] == steps[..i];
      assert AllDisciplined(owner, init);
      UntouchedLifeStays(owner, init, k, i);
      assert Disciplined(owner, step);
      if step.Scanned? && step.scan.mod.id == k.moduleId { ReportedMember(step.scan.reported, k.fingerprint); }
    }
  }

  lemma StateFollowsLife(backend: Backend, owner: RecordKey -> string, states: seq<State>, steps: seq<Step>,
                         k: RecordKey, i: nat)
    requires Run(backend, states, steps) && AllDisciplined(owner, steps) && i <= |steps|
    ensures LifeAt(states[i], k) == LifeOf(steps[..i], k)
    ensures k in states[i].rows ==> states[i].rows[k].finding.target == owner(k)
  {
    RunFollowsLives(backend, owner, states, steps, i);
  }

  /** The scan after a revival: the streak is still at the threshold, so missing the finding closes
      the record at once; seeing it starts afresh without a word. */
  lemma ScanAfterRevival(life: Life, s: Status, scan: Scan, report: Option<Arrival>, n: int)
    requires life.rec.Some? && life.rec.value.finding.target == scan.target
    requires s == Open || s == Acknowledged
    requires life.rec.value.absentStreak >= n == ResolveAfterOrDefault(scan.mod)
    ensures var revived := Some(WithStatus(life.rec.value, s));
            var after, said := Transition(scan, revived, report), Notices(scan, revived, report);
            && after.Some?
            && (report.None? ==> after.value.finding.status == Resolved && said == [Closed])
            && (report.Some? ==>
                  after.value.finding.status == s && after.value.absentStreak == 0 && said == [])
  {
  }

  /** Missed after a revival: a second resolution in a row. Seen: back without an opening. */
  predicate Misreported(before: Life, after: Life, seen: bool) {
    && after.rec.Some? && before.kinds != [] && before.kinds[|before.kinds| - 1] == Closed
    && after.kinds == before.kinds + (if seen then [] else [Closed])
    && (seen <==> after.rec.value.finding.status != Resolved)
  }

  lemma RevivedLife(owner: RecordKey -> string, steps: seq<Step>, k: RecordKey, n: int, i: nat, last: Step)
    requires AllDisciplined(owner, steps) && i < |steps| && Threshold(steps, k.moduleId, n)
    requires var rec := LifeOf(steps[..i], k).rec;
             rec.Some? && rec.value.finding.target == owner(k) && rec.value.finding.status == Resolved
    requires steps[i].Edited? && steps[i].key == k && UserStatus(steps[i].text) in {Some(Open), Some(Acknowledged)}
    requires forall l :: i < l < |steps| ==> Untouched(owner, steps[l], k)
    requires last.Scanned? && last.scan.mod.id == k.moduleId && last.scan.target == owner(k)
    requires ResolveAfterOrDefault(last.scan.mod) == n
    ensures Misreported(LifeOf(steps[..i], k), Live(LifeOf(steps, k), last, k), ReportIn(last, k).Some?)
  {
    var life := LifeOf(steps[..i], k);
    assert Threshold(steps[..i], k.moduleId, n);
    ResolvedRecordsAreAnnounced(steps[..i], k, n);
    LifeNext(steps, k, i);
    UntouchedLifeStays(owner, steps, k, i + 1);
    ScanAfterRevival(life, UserStatus(steps[i].text).value, last.scan, ReportIn(last, k), n);
  }

  lemma RevivedLifeAt(owner: RecordKey -> string, steps: seq<Step>, k: RecordKey, n: int, i: nat, j: nat,
                      before: Life, after: Life)
    requires AllDisciplined(owner, steps) && i < j < |steps| && Threshold(steps, k.moduleId, n)
    requires before == LifeOf(steps[..i], k) && after == LifeOf(steps[..j + 1], k)
    requires before.rec.Some? && before.rec.value.finding.status == Resolved
    requires before.rec.value.finding.target == owner(k)
    requires steps[i].Edited? && steps[i].key == k && UserStatus(steps[i].text) in {Some(Open), Some(Acknowledged)}
    requires forall l :: i < l < j ==> Untouched(owner, steps[l], k)
    requires steps[j].Scanned? && steps[j].scan.mod.id == k.moduleId && steps[j].scan.target == owner(k)
    ensures Misreported(before, after, ReportIn(steps[j], k).Some?)
  {
    var init := steps[..j];
    LifeNext(steps, k, j);
    assert init[..i] == steps[..i];
    assert AllDisciplined(owner, init) && Threshold(init, k.moduleId, n);
    RevivedLife(owner, init, k, n, i, steps[j]);
  }

  /** A resolved record set to open or acknowledged by hand keeps its streak. So the next scan of its
      target resolves it again if it misses the finding, a second resolution in a row; and if it
      sees the finding, the record is back without having been announced. */
  lemma RevivalIsMisreported(backend: Backend, owner: RecordKey -> string, states: seq<State>,
                             steps: seq<Step>, k: RecordKey, n: int, i: nat, j: nat)
    requires Run(backend, states, steps) && AllDisciplined(owner, steps) && Threshold(steps, k.moduleId, n)
    requires i < j < |steps| && k in states[i].rows && states[i].rows[k].finding.status == Resolved
    requires steps[i].Edited? && steps[i].key == k && UserStatus(steps[i].text) in {Some(Open), Some(Acknowledged)}
    requires forall l :: i < l < j ==> Untouched(owner, steps[l], k)
    requires steps[j].Scanned? && steps[j].scan.mod.id == k.moduleId && steps[j].scan.target == owner(k)
    ensures Misreported(LifeAt(states[i], k), LifeAt(states[j + 1], k), ReportIn(steps[j], k).Some?)
  {
    StateFollowsLife(backend, owner, states, steps, k, i);
    StateFollowsLife(backend, owner, states, steps, k, j + 1);
    RevivedLifeAt(owner, steps, k, n, i, j, LifeAt(states[i], k), LifeAt(states[j + 1], k));
  }

  // ----- identity, times and silence -----

  lemma LiveKeepsIdentity(life: Life, step: Step, k: RecordKey)
    requires life.rec.Some?
    ensures Live(life, step, k).rec.Some?
    ensures var r, r' := life.rec.value, Live(life, step, k).rec.value;
            SameIdentity(r, r') && KeyOf(r) == KeyOf(r')
  {
  }

  lemma {:induction false} LifeKeepsIdentity(steps: seq<Step>, k: RecordKey, i: nat)
    requires i <= |steps| && LifeOf(steps[..i], k).rec.Some?
    ensures LifeOf(steps, k).rec.Some?
    ensures var r, r' := LifeOf(steps[..i], k).rec.value, LifeOf(steps, k).rec.value;
            SameIdentity(r, r') && KeyOf(r) == KeyOf(r')
  {
    if i == |steps| {
      assert steps[..i] == steps;
    } else {
      var init := steps[..|steps| - 1];
      assert init[..i] == steps[..i];
      LifeKeepsIdentity(init, k, i);
      LiveKeepsIdentity(LifeOf(init, k), steps[|steps| - 1], k);
    }
  }

  /** Once stored, a record stays, and its id, module, target, check and first sighting never change. */
  lemma IdentityIsPermanent(backend: Backend, owner: RecordKey -> string, states: seq<State>,
                            steps: seq<Step>, k: RecordKey, i: nat, j: nat)
    requires Run(backend, states, steps) && AllDisciplined(owner, steps) && i <= j <= |steps|
    requires k in states[i].rows
    ensures k in states[j].rows
    ensures SameIdentity(states[i].rows[k], states[j].rows[k])
    ensures KeyOf(states[i].rows[k]) == KeyOf(states[j].rows[k]) == k
  {
    RunFollowsLives(backend, owner, states, steps, i);
    RunFollowsLives(backend, owner, states, steps, j);
    assert Life(At(states[i].rows, k), KindsFor(states[i].log, k)) == LifeOf(steps[..i], k);
    assert Life(At(states[j].rows, k), KindsFor(states[j].log, k)) == LifeOf(steps[..j], k);
    assert steps[..j][..i] == steps[..i];
    LifeKeepsIdentity(steps[..j], k, i);
  }

  ghost predicate ClockAdvances(steps: seq<Step>) {
    forall i, j :: 0 <= i < j < |steps| && steps[i].Scanned? && steps[j].Scanned?
      ==> steps[i].scan.now <= steps[j].scan.now
  }

  ghost predicate NoScanAfter(steps: seq<Step>, t: Time) {
    forall i :: 0 <= i < |steps| && steps[i].Scanned? ==> steps[i].scan.now <= t
  }

  /** Timestamps of a record, seen at time `t`. */
  predicate TimesInOrder(rec: Record, t: Time) {
    var f := rec.finding;
    && f.firstSeen <= f.lastSeen <= t
    && f.status in {Open, Resolved, Acknowledged, Suppressed}
    && (f.status == Resolved ==> f.resolvedAt.Some? && f.lastSeen <= f.resolvedAt.value <= t)
  }

  lemma LiveTimes(life: Life, step: Step, k: RecordKey, t: Time)
    requires life.rec.Some? ==> TimesInOrder(life.rec.value, t)
    requires step.Scanned? ==> t == step.scan.now
    ensures Live(life, step, k).rec.Some? ==> TimesInOrder(Live(life, step, k).rec.value, t)
  {
  }

  lemma {:induction false} LifeTimes(steps: seq<Step>, k: RecordKey, t: Time)
    requires ClockAdvances(steps) && NoScanAfter(steps, t)
    ensures LifeOf(steps, k).rec.Some? ==> TimesInOrder(LifeOf(steps, k).rec.value, t)
  {
    if steps == [] {
    } else {
      var init, step := steps[..|steps| - 1], steps[|steps| - 1];
      var u := if step.Scanned? then step.scan.now else t;
      assert forall i :: 0 <= i < |init| ==> init[i] == steps[i];
      LifeTimes(init, k, u);
      LiveTimes(LifeOf(init, k), step, k, u);
    }
  }

  /** With a clock that never runs backwards: first seen, last seen, resolved and now are in order. */
  lemma TimesStayInOrder(backend: Backend, owner: RecordKey -> string, states: seq<State>,
                         steps: seq<Step>, k: RecordKey, t: Time)
    requires Run(backend, states, steps) && AllDisciplined(owner, steps)
    requires ClockAdvances(steps) && NoScanAfter(steps, t)
    ensures k in states[|steps|].rows ==> TimesInOrder(states[|steps|].rows[k], t)
  {
    RunFollowsLives(backend, owner, states, steps, |steps|);
    assert steps[..|steps|] == steps;
    assert Life(At(states[|steps|].rows, k), KindsFor(states[|steps|].log, k)) == LifeOf(steps, k);
    LifeTimes(steps, k, t);
  }

  predicate IsSuppressed(life: Life) {
    life.rec.Some? && life.rec.value.finding.status == Suppressed
  }

  lemma {:induction false} SuppressedLife(steps: seq<Step>, k: RecordKey, i: nat)
    requires i <= |steps| && NeverEdited(steps[i..], k) && IsSuppressed(LifeOf(steps[..i], k))
    ensures IsSuppressed(LifeOf(steps, k)) && LifeOf(steps, k).kinds == LifeOf(steps[..i], k).kinds
  {
    if i == |steps| {
      assert steps[..i] == steps;
    } else {
      var n := |steps| - 1;
      var init := steps[..n];
      assert init[..i] == steps[..i];
      assert steps[n] == steps[i..][n - i];
      assert forall j :: 0 <= j < |init[i..]| ==> init[i..][j] == steps[i..][j];
      SuppressedLife(init, k, i);
    }
  }

  /** Until the user acts again, a suppressed record stays suppressed and is never announced. */
  lemma SuppressedStaysSilent(backend: Backend, owner: RecordKey -> string, states: seq<State>,
                              steps: seq<Step>, k: RecordKey, i: nat, j: nat)
    requires Run(backend, states, steps) && AllDisciplined(owner, steps) && i <= j <= |steps|
    requires k in states[i].rows && states[i].rows[k].finding.status == Suppressed
    requires NeverEdited(steps[i..j], k)
    ensures k in states[j].rows && states[j].rows[k].finding.status == Suppressed
    ensures KindsFor(states[j].log, k) == KindsFor(states[i].log, k)
  {
    RunFollowsLives(backend, owner, states, steps, i);
    RunFollowsLives(backend, owner, states, steps, j);
    assert Life(At(states[i].rows, k), KindsFor(states[i].log, k)) == LifeOf(steps[..i], k);
    assert Life(At(states[j].rows, k), KindsFor(states[j].log, k)) == LifeOf(steps[..j], k);
    assert steps[..j][..i] == steps[..i] && steps[..j][i..] == steps[i..j];
    SuppressedLife(steps[..j], k, i);
  }

  // ----- identifiers sort by first sighting -----

  ghost predicate Minted(rec: Record) {
    exists e: Entropy :: rec.finding.id == NewUlid(rec.finding.firstSeen, e)
  }

  lemma LiveMinted(life: Life, step: Step, k: RecordKey)
    requires life.rec.Some? ==> Minted(life.rec.value)
    ensures Live(life, step, k).rec.Some? ==> Minted(Live(life, step, k).rec.value)
  {
    if life.rec.Some? {
      LiveKeepsIdentity(life, step, k);
    } else if Live(life, step, k).rec.Some? {
      var a := ReportIn(step, k).value;
      var rec := Live(life, step, k).rec.value;
      assert rec.finding.id == NewUlid(rec.finding.firstSeen, a.entropy);
    }
  }

  lemma {:induction false} LifeMinted(steps: seq<Step>, k: RecordKey)
    ensures LifeOf(steps, k).rec.Some? ==> Minted(LifeOf(steps, k).rec.value)
  {
    if steps == [] {
    } else {
      LifeMinted(steps[..|steps| - 1], k);
      LiveMinted(LifeOf(steps[..|steps| - 1], k), steps[|steps| - 1], k);
    }
  }

  /** Across a run, of two stored records the one first seen in an earlier millisecond has the
      smaller id, whatever random bytes were drawn. */
  lemma IdsSortByFirstSighting(backend: Backend, owner: RecordKey -> string, states: seq<State>,
                               steps: seq<Step>, i: nat, k: RecordKey, j: nat, l: RecordKey)
    requires Run(backend, states, steps) && AllDisciplined(owner, steps) && i <= |steps| && j <= |steps|
    requires k in states[i].rows && l in states[j].rows
    requires 0 <= UnixMilli(states[i].rows[k].finding.firstSeen)
             < UnixMilli(states[j].rows[l].finding.firstSeen) < 0x1_0000_0000_0000
    ensures StrLess(states[i].rows[k].finding.id, states[j].rows[l].finding.id)
  {
    var r, q := states[i].rows[k], states[j].rows[l];
    StoredIsMinted(backend, owner, states, steps, i, k);
    StoredIsMinted(backend, owner, states, steps, j, l);
    var e: Entropy :| r.finding.id == NewUlid(r.finding.firstSeen, e);
    var f: Entropy :| q.finding.id == NewUlid(q.finding.firstSeen, f);
    EarlierSortsFirst(r.finding.firstSeen, e, q.finding.firstSeen, f);
  }

  lemma StoredIsMinted(backend: Backend, owner: RecordKey -> string, states: seq<State>,
                       steps: seq<Step>, i: nat, k: RecordKey)
    requires Run(backend, states, steps) && AllDisciplined(owner, steps) && i <= |steps|
    requires k in states[i].rows
    ensures Minted(states[i].rows[k])
  {
    RunFollowsLives(backend, owner, states, steps, i);
    assert Life(At(states[i].rows, k), KindsFor(states[i].log, k)) == LifeOf(steps[..i], k);
    LifeMinted(steps[..i], k);
  }

  // ----- the two stores -----

  lemma LogsPermute(b: Backend, b': Backend, s: State, t: State, scan: Scan, s': State, t': State)
    requires WellKeyed(s.rows) && WellFormedScan(scan) && OwnFingerprints(s.rows, scan)
    requires s.rows == t.rows && multiset(s.log) == multiset(t.log)
    requires Next(b, s, Scanned(scan), s') && Next(b', t, Scanned(scan), t')
    ensures multiset(s'.log) == multiset(t'.log)
  {
    var ls :| ScanWith(b, s, scan, s', ls);
    var lt :| ScanWith(b', t, scan, t', lt);
    OrderIsIrrelevant(s.rows, b, scan, ls, b', scan, lt);
    var x, y := Report(s.rows, scan, ls), Report(s.rows, scan, lt);
    TaggedPermutes(Opened, scan.mod.id, x.newlyOpen, y.newlyOpen);
    TaggedPermutes(Closed, scan.mod.id, x.resolved, y.resolved);
  }

  function Tag(kind: EventKind, moduleId: string): Finding -> Option<Event> {
    (f: Finding) => Some(Event(kind, moduleId, f))
  }

  lemma {:induction false} TaggedIsCollected(kind: EventKind, moduleId: string, fs: seq<Finding>)
    ensures Tagged(kind, moduleId, fs) == Collect(fs, Tag(kind, moduleId))
  {
    if fs == [] {
    } else {
      TaggedIsCollected(kind, moduleId, fs[..|fs| - 1]);
    }
  }

  lemma TaggedPermutes(kind: EventKind, moduleId: string, a: seq<Finding>, b: seq<Finding>)
    requires multiset(a) == multiset(b)
    ensures multiset(Tagged(kind, moduleId, a)) == multiset(Tagged(kind, moduleId, b))
  {
    TaggedIsCollected(kind, moduleId, a);
    TaggedIsCollected(kind, moduleId, b);
    CollectPermutation(a, b, Tag(kind, moduleId));
  }

  /** The same scans and edits leave the in-memory store and SQLite equal after every step, and
      both announce the same events. */
  lemma {:induction false} StoresAgree(owner: RecordKey -> string, mem: seq<State>, sql: seq<State>,
                                       steps: seq<Step>, i: nat)
    requires Run(Memory, mem, steps) && Run(Sqlite, sql, steps) && AllDisciplined(owner, steps)
    requires i <= |steps|
    ensures mem[i].rows == sql[i].rows
    ensures multiset(mem[i].log) == multiset(sql[i].log)
  {
    RunFollowsLives(Memory, owner, mem, steps, i);
    RunFollowsLives(Sqlite, owner, sql, steps, i);
    forall k: RecordKey ensures At(mem[i].rows, k) == At(sql[i].rows, k) {
      assert Life(At(mem[i].rows, k), KindsFor(mem[i].log, k)) == LifeOf(steps[..i], k);
      assert Life(At(sql[i].rows, k), KindsFor(sql[i].log, k)) == LifeOf(steps[..i], k);
    }
    RowsExtensional(mem[i].rows, sql[i].rows);
    if i == 0 {
    } else {
      StoresAgree(owner, mem, sql, steps, i - 1);
      RunFollowsLives(Memory, owner, mem, steps, i - 1);
      assert Leads(Memory, mem, steps, i - 1) && Leads(Sqlite, sql, steps, i - 1);
      if steps[i - 1].Scanned? {
        OwnersKeepFingerprints(owner, mem[i - 1].rows, steps[i - 1].scan);
        LogsPermute(Memory, Sqlite, mem[i - 1], sql[i - 1], steps[i - 1].scan, mem[i], sql[i]);
      }
    }
  }

  lemma OwnersKeepFingerprints(owner: RecordKey -> string, rows: Rows, scan: Scan)
    requires Owned(owner, rows) && Disciplined(owner, Scanned(scan))
    ensures OwnFingerprints(rows, scan)
  {
  }
}
