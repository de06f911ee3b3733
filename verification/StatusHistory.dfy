/** The stored status, streak and resolution time of a record, told from its history alone. */
module StatusHistory {
  import opened Core
  import opened Seqs
  import opened Stores
  import opened Reconcile
  import opened Pointwise
  import opened Announce
  import opened Lifecycle
  import opened RunProperties

  function StatusAt(s: State, k: RecordKey): Option<Status> {
    if k in s.rows then Some(s.rows[k].finding.status) else None
  }

  /** A successful scan of one target. */
  predicate Covers(step: Step, k: RecordKey, target: string) {
    step.Scanned? && step.scan.mod.id == k.moduleId && step.scan.target == target
  }

  /** Scans of its target that missed the record since it was last seen, not counting those that met
      it resolved or suppressed. */
  function Absences(states: seq<State>, steps: seq<Step>, k: RecordKey, target: string, i: nat): nat
    requires |states| == |steps| + 1 && i <= |steps|
  {
    if i == 0 then 0
    else
      var before := Absences(states, steps, k, target, i - 1);
      if !Covers(steps[i - 1], k, target) then before
      else if ReportIn(steps[i - 1], k).Some? then 0
      else if StatusAt(states[i - 1], k) in {None, Some(Resolved), Some(Suppressed)} then before
      else before + 1
  }

  lemma RunStep(backend: Backend, owner: RecordKey -> string, states: seq<State>, steps: seq<Step>,
                k: RecordKey, i: nat)
    requires Run(backend, states, steps) && AllDisciplined(owner, steps) && i < |steps|
    ensures LifeAt(states[i + 1], k) == Live(LifeAt(states[i], k), steps[i], k)
    ensures k in states[i].rows ==> states[i].rows[k].finding.target == owner(k)
    ensures steps[i].Scanned? && steps[i].scan.mod.id == k.moduleId && ReportIn(steps[i], k).Some? ==>
              steps[i].scan.target == owner(k)
  {
    RunFollowsLives(backend, owner, states, steps, i);
    assert Leads(backend, states, steps, i);
    StepFollowsLives(backend, owner, states[i], steps[i], states[i + 1]);
    if steps[i].Scanned? { ReportedMember(steps[i].scan.reported, k.fingerprint); }
  }

  /** The stored streak counts those absences, whatever the user did. */
  lemma {:induction false} StreakIsAbsences(backend: Backend, owner: RecordKey -> string, states: seq<State>,
                                            steps: seq<Step>, k: RecordKey, i: nat)
    requires Run(backend, states, steps) && AllDisciplined(owner, steps) && i <= |steps|
    ensures Absences(states, steps, k, owner(k), i)
         == if k in states[i].rows then states[i].rows[k].absentStreak else 0
  {
    if i == 0 {
    } else {
      StreakIsAbsences(backend, owner, states, steps, k, i - 1);
      RunStep(backend, owner, states, steps, k, i - 1);
      StreakMoves(LifeAt(states[i - 1], k), steps[i - 1], k, owner(k));
    }
  }

  predicate Exempt(rec: Option<Record>) {
    rec.None? || rec.value.finding.status == Resolved || rec.value.finding.status == Suppressed
  }

  function StreakOf(rec: Option<Record>): int { if rec.Some? then rec.value.absentStreak else 0 }

  lemma StreakMoves(life: Life, step: Step, k: RecordKey, target: string)
    requires life.rec.Some? ==> life.rec.value.finding.target == target
    requires step.Scanned? && step.scan.mod.id == k.moduleId && ReportIn(step, k).Some? ==> step.scan.target == target
    ensures StreakOf(Live(life, step, k).rec)
         == if !Covers(step, k, target) then StreakOf(life.rec)
            else if ReportIn(step, k).Some? then 0
            else if Exempt(life.rec) then StreakOf(life.rec)
            else StreakOf(life.rec) + 1
  {
  }

  /** What one step does to the status, by history alone: a sighting opens a new or resolved record and
      leaves any other status, acknowledged and suppressed included, as it is; a miss resolves once the
      absences reach the threshold; an accepted edit sets what it says; nothing else changes it. */
  lemma StatusMoves(backend: Backend, owner: RecordKey -> string, states: seq<State>, steps: seq<Step>,
                    k: RecordKey, i: nat)
    requires Run(backend, states, steps) && AllDisciplined(owner, steps) && i < |steps|
    ensures var was, now, step := StatusAt(states[i], k), StatusAt(states[i + 1], k), steps[i];
      && (Covers(step, k, owner(k)) && ReportIn(step, k).Some? ==>
            now == if was in {None, Some(Resolved)} then Some(Open) else was)
      && (Covers(step, k, owner(k)) && ReportIn(step, k).None? ==>
            now == if was !in {None, Some(Resolved), Some(Suppressed)}
                      && Absences(states, steps, k, owner(k), i + 1) >= ResolveAfterOrDefault(step.scan.mod)
                   then Some(Resolved) else was)
      && (step.Edited? && step.key == k && UserStatus(step.text).Some? && was.Some? ==>
            now == UserStatus(step.text))
      && (!Covers(step, k, owner(k)) && (step.Edited? ==> step.key != k || UserStatus(step.text).None?) ==>
            now == was)
  {
    RunStep(backend, owner, states, steps, k, i);
    StreakIsAbsences(backend, owner, states, steps, k, i + 1);
    StreakIsAbsences(backend, owner, states, steps, k, i);
    StatusStep(LifeAt(states[i], k), steps[i], k, owner(k));
  }

  function StatusOf(rec: Option<Record>): Option<Status> {
    if rec.Some? then Some(rec.value.finding.status) else None
  }

  lemma StatusStep(life: Life, step: Step, k: RecordKey, target: string)
    requires life.rec.Some? ==> life.rec.value.finding.target == target
    requires step.Scanned? && step.scan.mod.id == k.moduleId && ReportIn(step, k).Some? ==> step.scan.target == target
    ensures var was, now := StatusOf(life.rec), StatusOf(Live(life, step, k).rec);
      && (Covers(step, k, target) && ReportIn(step, k).Some? ==>
            now == if was in {None, Some(Resolved)} then Some(Open) else was)
      && (Covers(step, k, target) && ReportIn(step, k).None? ==>
            now == if !Exempt(life.rec) && StreakOf(life.rec) + 1 >= ResolveAfterOrDefault(step.scan.mod)
                   then Some(Resolved) else was)
      && (step.Edited? && step.key == k && UserStatus(step.text).Some? && was.Some? ==>
            now == UserStatus(step.text))
      && (!Covers(step, k, target) && (step.Edited? ==> step.key != k || UserStatus(step.text).None?) ==> now == was)
  {
  }

  // ----- after an edit -----

  /** Misses in a row at the end of a history that starts after `c` of them. */
  function MissedSince(c: nat, h: seq<bool>): nat {
    if h == [] then c else if h[|h| - 1] then 0 else MissedSince(c, h[..|h| - 1]) + 1
  }

  /** At some scan of the history, `n` in a row had missed the finding. */
  ghost predicate Lapsed(c: nat, h: seq<bool>, n: int) {
    exists p :: 0 < p <= |h| && !h[p - 1] && MissedSince(c, h[..p]) >= n
  }

  lemma LapsedNext(c: nat, h: seq<bool>, b: bool, n: int)
    ensures Lapsed(c, h + [b], n) <==> Lapsed(c, h, n) || (!b && MissedSince(c, h) + 1 >= n)
    ensures MissedSince(c, h + [b]) == if b then 0 else MissedSince(c, h) + 1
  {
    var t := h + [b];
    assert t[..|h|] == h && t[..|t|] == t;
    if p :| 0 < p <= |h| && !h[p - 1] && MissedSince(c, h[..p]) >= n {
      assert t[..p] == h[..p] && !t[p - 1];
    }
    if p :| 0 < p <= |t| && !t[p - 1] && MissedSince(c, t[..p]) >= n {
      if p <= |h| { assert t[..p] == h[..p] && !h[p - 1]; }
    }
    if !b && MissedSince(c, h) + 1 >= n { assert !t[|t| - 1] && MissedSince(c, t[..|t|]) >= n; }
  }

  /** The status a record shows that was set to `s` after `c` absences and then lived through `h`. */
  ghost predicate Shows(status: Status, s: Status, c: nat, h: seq<bool>, n: int) {
    && (!Lapsed(c, h, n) ==> status == s)
    && (Lapsed(c, h, n) && MissedSince(c, h) >= n ==> status == Resolved)
    && (Lapsed(c, h, n) && MissedSince(c, h) < n ==> status == Open)
  }

  ghost predicate ShowsRecord(rec: Option<Record>, target: string, s: Status, c: nat, h: seq<bool>, n: int) {
    && rec.Some? && rec.value.finding.target == target && Shows(rec.value.finding.status, s, c, h, n)
    && (rec.value.finding.status != Resolved ==> rec.value.absentStreak == MissedSince(c, h))
  }

  lemma ShowsAfterScan(rec: Option<Record>, s: Status, c: nat, h: seq<bool>, n: int, scan: Scan,
                       report: Option<Arrival>)
    requires 1 <= n == ResolveAfterOrDefault(scan.mod) && (s == Open || s == Acknowledged)
    requires ShowsRecord(rec, scan.target, s, c, h, n)
    ensures ShowsRecord(Transition(scan, rec, report), scan.target, s, c, h + [report.Some?], n)
  {
    LapsedNext(c, h, report.Some?, n);
  }

  ghost predicate Unedited(steps: seq<Step>, k: RecordKey, i: nat) {
    forall l :: i <= l < |steps| && steps[l].Edited? && UserStatus(steps[l].text).Some? ==> steps[l].key != k
  }

  lemma {:induction false} LifeAfterEdit(owner: RecordKey -> string, steps: seq<Step>, k: RecordKey, n: int, i: nat,
                                         s: Status, c: nat)
    requires AllDisciplined(owner, steps) && Threshold(steps, k.moduleId, n) && 1 <= n
    requires i <= |steps| && Unedited(steps, k, i) && (s == Open || s == Acknowledged)
    requires ShowsRecord(LifeOf(steps[..i], k).rec, owner(k), s, c, [], n)
    ensures ShowsRecord(LifeOf(steps, k).rec, owner(k), s, c, Appearances(steps[i..], k, owner(k)), n)
  {
    if i == |steps| {
      assert steps[..i] == steps;
    } else {
      var init, step := steps[..|steps| - 1], steps[|steps| - 1];
      assert init[..i] == steps[..i] && steps[i..][..|steps[i..]| - 1] == init[i..];
      assert AllDisciplined(owner, init) && Threshold(init, k.moduleId, n) && Unedited(init, k, i);
      LifeAfterEdit(owner, init, k, n, i, s, c);
      StepAfterEdit(owner, LifeOf(init, k), step, k, n, s, c, Appearances(init[i..], k, owner(k)));
    }
  }

  lemma StepAfterEdit(owner: RecordKey -> string, life: Life, step: Step, k: RecordKey, n: int, s: Status, c: nat,
                      h: seq<bool>)
    requires Disciplined(owner, step) && 1 <= n && (s == Open || s == Acknowledged)
    requires step.Scanned? && step.scan.mod.id == k.moduleId ==> ResolveAfterOrDefault(step.scan.mod) == n
    requires step.Edited? && UserStatus(step.text).Some? ==> step.key != k
    requires ShowsRecord(life.rec, owner(k), s, c, h, n)
    ensures ShowsRecord(Live(life, step, k).rec, owner(k), s, c,
                        if Covers(step, k, owner(k)) then h + [ReportIn(step, k).Some?] else h, n)
  {
    if step.Scanned? && step.scan.mod.id == k.moduleId {
      ReportedMember(step.scan.reported, k.fingerprint);
      if step.scan.target == owner(k) { ShowsAfterScan(life.rec, s, c, h, n, step.scan, ReportIn(step, k)); }
    }
  }

  /** After an accepted edit to open or acknowledged, and no later one, the record shows what the
      edit said as long as fewer than N scans of its target in a row have missed the finding,
      counting the absences before the edit. Once N have, it is resolved, and from the next sighting
      on it is open. */
  lemma EditHoldsUntilLapse(backend: Backend, owner: RecordKey -> string, states: seq<State>, steps: seq<Step>,
                            k: RecordKey, n: int, i: nat, j: nat)
    requires Run(backend, states, steps) && AllDisciplined(owner, steps)
    requires Threshold(steps, k.moduleId, n) && 1 <= n
    requires i < j <= |steps| && k in states[i].rows && steps[i].Edited? && steps[i].key == k
    requires UserStatus(steps[i].text) in {Some(Open), Some(Acknowledged)} && Unedited(steps[..j], k, i + 1)
    ensures k in states[j].rows
    ensures Shows(states[j].rows[k].finding.status, UserStatus(steps[i].text).value,
                  Absences(states, steps, k, owner(k), i), Appearances(steps[i + 1..j], k, owner(k)), n)
  {
    var s, c := UserStatus(steps[i].text).value, Absences(states, steps, k, owner(k), i);
    StreakIsAbsences(backend, owner, states, steps, k, i);
    StateFollowsLife(backend, owner, states, steps, k, i);
    StateFollowsLife(backend, owner, states, steps, k, j);
    JustEdited(LifeOf(steps[..i], k), steps[i], k, n, owner(k));
    LifeNext(steps, k, i);
    var seen := steps[..j];
    assert seen[..i + 1] == steps[..i + 1] && seen[i + 1..] == steps[i + 1..j];
    assert AllDisciplined(owner, seen) && Threshold(seen, k.moduleId, n);
    LifeAfterEdit(owner, seen, k, n, i + 1, s, c);
  }

  lemma JustEdited(life: Life, step: Step, k: RecordKey, n: int, target: string)
    requires life.rec.Some? && life.rec.value.finding.target == target && 0 <= life.rec.value.absentStreak
    requires step.Edited? && step.key == k && UserStatus(step.text).Some?
    ensures ShowsRecord(Live(life, step, k).rec, target, UserStatus(step.text).value,
                        life.rec.value.absentStreak, [], n)
  {
  }

  // ----- the time of resolution -----

  /** The scan time of the last change to resolved, cleared by the change back a scan makes. A first
      sighting brings what the collector sent; edits leave it alone. */
  function ResolutionTime(states: seq<State>, steps: seq<Step>, k: RecordKey, i: nat): Option<Time>
    requires |states| == |steps| + 1 && i <= |steps|
  {
    if i == 0 then None
    else
      var before := ResolutionTime(states, steps, k, i - 1);
      var was, now, step := StatusAt(states[i - 1], k), StatusAt(states[i], k), steps[i - 1];
      if !step.Scanned? || was == now then before
      else if was.None? then (if ReportIn(step, k).Some? then ReportIn(step, k).value.finding.resolvedAt else None)
      else if now == Some(Resolved) then Some(step.scan.now)
      else None
  }

  lemma {:induction false} ResolvedAtIsLastResolution(backend: Backend, owner: RecordKey -> string,
                                                      states: seq<State>, steps: seq<Step>, k: RecordKey, i: nat)
    requires Run(backend, states, steps) && AllDisciplined(owner, steps) && i <= |steps|
    ensures k in states[i].rows ==> states[i].rows[k].finding.resolvedAt == ResolutionTime(states, steps, k, i)
  {
    if i == 0 {
    } else {
      ResolvedAtIsLastResolution(backend, owner, states, steps, k, i - 1);
      RunStep(backend, owner, states, steps, k, i - 1);
      ResolvedAtMoves(LifeAt(states[i - 1], k), steps[i - 1], k);
    }
  }

  lemma ResolvedAtMoves(life: Life, step: Step, k: RecordKey)
    ensures var was, now := StatusOf(life.rec), StatusOf(Live(life, step, k).rec);
            now.Some? ==>
              Live(life, step, k).rec.value.finding.resolvedAt
              == if !step.Scanned? || was == now then life.rec.value.finding.resolvedAt
                 else if was.None? then ReportIn(step, k).value.finding.resolvedAt
                 else if now == Some(Resolved) then Some(step.scan.now)
                 else None
  {
  }
}
