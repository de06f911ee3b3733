/** The scheduler's timing and concurrency: sched/scheduler.go. */
module Scheduling {
  import opened Core
  import opened Seqs

  // ----- capped doubling in 64-bit arithmetic -----

  /** Signed 64-bit wrap-around of doubling. */
  function Doubled(d: int): int {
    var w := (2 * d) % 0x1_0000_0000_0000_0000;
    if w > 0x7FFF_FFFF_FFFF_FFFF then w - 0x1_0000_0000_0000_0000 else w
  }

  function Min(a: int, b: int): int { if a <= b then a else b }

  /** `base` doubled `n` times, without any bound. */
  function Exp(base: int, n: nat): int {
    if n == 0 then base else 2 * Exp(base, n - 1)
  }

  /** The loop of backoffFor, `d` being the delay after `i` doublings. */
  function Loop(d: int, turns: nat, max: int): int
    decreases turns
  {
    if turns == 0 then Min(d, max)
    else if Doubled(d) >= max then max
    else Loop(Doubled(d), turns - 1, max)
  }

  /** backoffFor: the loop as written. */
  method BackoffFor(base: int, max: int, consecutive: int) returns (d: int)
    ensures d == Loop(base, if consecutive <= 1 then 0 else consecutive - 1, max)
  {
    d := base;
    var i := 1;
    ghost var turns: nat := if consecutive <= 1 then 0 else consecutive - 1;
    while i < consecutive
      invariant 1 <= i && (i <= consecutive || turns == 0)
      invariant turns >= i - 1 && Loop(base, turns, max) == Loop(d, turns - (i - 1), max)
      invariant i >= consecutive ==> turns == i - 1
    {
      d := Doubled(d);
      if d >= max { return max; }
      i := i + 1;
    }
    if d > max { d := max; }
  }

  /** The largest value reached by doubling before 2^62 is passed. */
  function Highest(base: int): int
    requires 0 < base
    decreases 0x4000_0000_0000_0000 - base
  {
    if base >= 0x4000_0000_0000_0000 then base else Highest(2 * base)
  }

  lemma DoubledSmall(d: int)
    requires 0 <= d < 0x4000_0000_0000_0000
    ensures Doubled(d) == 2 * d
  {
  }

  lemma DoubledLarge(d: int)
    requires 0x4000_0000_0000_0000 <= d <= 0x7FFF_FFFF_FFFF_FFFF
    ensures Doubled(d) < 0
  {
  }

  lemma {:induction false} ExpShift(base: int, n: nat)
    ensures Exp(2 * base, n) == Exp(base, n + 1)
  {
    if n == 0 {
    } else {
      ExpShift(base, n - 1);
    }
  }

  lemma {:induction false} ExpGrows(base: int, n: nat)
    requires 0 < base
    ensures Exp(base, n) >= base
  {
    if n == 0 {
    } else {
      ExpGrows(base, n - 1);
    }
  }

  /** No overflow can happen: the cap is met before or at the last value that still doubles safely. */
  predicate SafeBackoff(base: int, max: int) {
    0 < base < 0x4000_0000_0000_0000 && max <= Highest(base)
  }

  lemma {:induction false} SafeLoop(d: int, turns: nat, max: int)
    requires 0 < d < 0x4000_0000_0000_0000 && 0 < max <= Highest(d)
    ensures Loop(d, turns, max) == Min(Exp(d, turns), max)
    decreases turns
  {
    if turns == 0 {
    } else {
      DoubledSmall(d);
      assert Highest(d) == Highest(2 * d);
      ExpShift(d, turns - 1);
      ExpGrows(2 * d, turns - 1);
      if 2 * d < max {
        SafeLoop(2 * d, turns - 1, max);
      }
    }
  }

  /** Where an unsafe configuration first goes wrong. */
  lemma {:induction false} UnsafeLoop(d: int, max: int) returns (turns: nat)
    requires 0 < d <= 0x7FFF_FFFF_FFFF_FFFF && 0 < max <= 0x7FFF_FFFF_FFFF_FFFF
    requires d >= 0x4000_0000_0000_0000 || Highest(d) < max
    ensures Loop(d, turns, max) < 0
    decreases 0x4000_0000_0000_0000 - d
  {
    if d >= 0x4000_0000_0000_0000 {
      DoubledLarge(d);
      turns := 1;
      assert Loop(Doubled(d), 0, max) == Doubled(d);
    } else {
      DoubledSmall(d);
      HighestGrows(2 * d);
      var more := UnsafeLoop(2 * d, max);
      turns := more + 1;
    }
  }

  lemma {:induction false} HighestGrows(base: int)
    requires 0 < base
    ensures base <= Highest(base)
    decreases 0x4000_0000_0000_0000 - base
  {
    if 0x4000_0000_0000_0000 <= base {
    } else {
      HighestGrows(2 * base);
    }
  }

  /** The delay is the capped doubling for every failure count exactly when the configuration is
      safe; otherwise some count yields a negative delay, that is, no backoff at all. */
  lemma BackoffIsCappedDoubling(base: int, max: int)
    requires 0 < base <= 0x7FFF_FFFF_FFFF_FFFF && 0 < max <= 0x7FFF_FFFF_FFFF_FFFF
    ensures SafeBackoff(base, max) <==> forall turns: nat :: Loop(base, turns, max) == Min(Exp(base, turns), max)
    ensures !SafeBackoff(base, max) ==> exists turns: nat :: Loop(base, turns, max) < 0
    ensures base < 0x4000_0000_0000_0000 && max <= 0x4000_0000_0000_0000 ==> SafeBackoff(base, max)
  {
    HighestReaches(base);
    if SafeBackoff(base, max) {
      forall turns: nat ensures Loop(base, turns, max) == Min(Exp(base, turns), max) {
        SafeLoop(base, turns, max);
      }
    } else {
      var turns := UnsafeLoop(base, max);
      ExpGrows(base, turns);
      assert Loop(base, turns, max) != Min(Exp(base, turns), max);
    }
  }

  lemma {:induction false} HighestReaches(base: int)
    requires 0 < base
    ensures Highest(base) >= 0x4000_0000_0000_0000
    decreases 0x4000_0000_0000_0000 - base
  {
    if 0x4000_0000_0000_0000 <= base {
    } else {
      HighestReaches(2 * base);
    }
  }

  /** More failures never shorten the wait. */
  lemma BackoffGrows(base: int, max: int, m: nat, n: nat)
    requires SafeBackoff(base, max) && 0 < max && m <= n
    ensures Loop(base, m, max) <= Loop(base, n, max) <= max
  {
    SafeLoop(base, m, max);
    SafeLoop(base, n, max);
    ExpMonotone(base, m, n);
  }

  lemma {:induction false} ExpMonotone(base: int, m: nat, n: nat)
    requires 0 < base && m <= n
    ensures Exp(base, m) <= Exp(base, n)
    decreases n
  {
    if m == n {
    } else {
      ExpMonotone(base, m, n - 1);
      ExpGrows(base, n - 1);
    }
  }

  // ----- per-target failures and the backoff gate -----

  datatype Outcome = Succeeded | Cancelled | Failed

  /** A sweep's scan coming back. */
  datatype Completion = Completion(target: string, outcome: Outcome, at: Time)

  /** Failures of a target since its last success or cancellation. */
  function Streak(h: seq<Completion>, t: string): nat {
    if h == [] then 0
    else
      var c := h[|h| - 1];
      if c.target != t then Streak(h[..|h| - 1], t)
      else if c.outcome == Failed then Streak(h[..|h| - 1], t) + 1
      else 0
  }

  /** When a target may next be launched: none while it is not failing, else its last failure plus
      the delay its streak earns. */
  function Gate(h: seq<Completion>, t: string, base: int, max: int): Option<Time> {
    if h == [] then None
    else
      var c := h[|h| - 1];
      if c.target != t then Gate(h[..|h| - 1], t, base, max)
      else if c.outcome == Failed then Some(c.at + Loop(base, Streak(h, t) - 1, max))
      else None
  }

  lemma HistoryNext(h: seq<Completion>, c: Completion, base: int, max: int)
    ensures forall t :: Streak(h + [c], t) == if c.target != t then Streak(h, t)
                                              else if c.outcome == Failed then Streak(h, t) + 1 else 0
    ensures forall t :: Gate(h + [c], t, base, max)
                     == if c.target != t then Gate(h, t, base, max)
                        else if c.outcome == Failed then Some(c.at + Loop(base, Streak(h, t), max)) else None
  {
    assert (h + [c])[..|h|] == h;
  }

  datatype ScanError = ScanError(target: string, attempt: nat, nextTry: int)

  class ModuleLoop {
    const base: int
    const max: int
    var failures: map<string, nat>
    var nextOK: map<string, Option<Time>>
    ghost var history: seq<Completion>

    function FailuresOf(t: string): nat
      reads this
    {
      if t in failures then failures[t] else 0
    }

    /** A missing gate is Go's zero time, which no clock is before. */
    function GateOf(t: string): Option<Time>
      reads this
    {
      if t in nextOK then nextOK[t] else None
    }

    ghost predicate Valid()
      reads this
    {
      && (forall t :: FailuresOf(t) == Streak(history, t))
      && (forall t :: GateOf(t) == Gate(history, t, base, max))
    }

    constructor (base: int, max: int)
      ensures Valid() && history == [] && this.base == base && this.max == max
    {
      this.base, this.max := base, max;
      failures, nextOK, history := map[], map[], [];
    }

    /** The delay after `n` consecutive failures: capped doubling when the configuration is safe. */
    method DelayAfter(n: nat) returns (delay: int)
      requires 1 <= n
      ensures delay == Loop(base, n - 1, max)
      ensures SafeBackoff(base, max) && 0 < max ==> delay == Min(Exp(base, n - 1), max)
    {
      delay := BackoffFor(base, max, n);
      if SafeBackoff(base, max) && 0 < max { SafeLoop(base, n - 1, max); }
    }

    method Record(ghost c: Completion, t: string, count: nat, gate: Option<Time>)
      requires Valid() && t == c.target
      requires count == Streak(history + [c], t) && gate == Gate(history + [c], t, base, max)
      modifies this
      ensures Valid() && history == old(history) + [c]
    {
      HistoryNext(history, c, base, max);
      failures := failures[t := count];
      nextOK := nextOK[t := gate];
      history := history + [c];
    }

    /** The tail of a sweep's goroutine: count the failure and close the gate, or clear both. The
        reported attempt is the streak, and the reported delay its capped doubling when the
        configuration is safe. */
    method Complete(c: Completion) returns (report: Option<ScanError>)
      requires Valid()
      modifies this
      ensures Valid() && history == old(history) + [c]
      ensures report.Some? <==> c.outcome == Failed
      ensures report.Some? ==>
        && report.value.target == c.target
        && report.value.attempt == Streak(history, c.target) == old(Streak(history, c.target)) + 1
        && Gate(history, c.target, base, max) == Some(c.at + report.value.nextTry)
        && (SafeBackoff(base, max) && 0 < max
            ==> report.value.nextTry == Min(Exp(base, report.value.attempt - 1), max))
    {
      HistoryNext(history, c, base, max);
      if c.outcome == Failed {
        var n := FailuresOf(c.target) + 1;
        var delay := DelayAfter(n);
        Record(c, c.target, n, Some(c.at + delay));
        report := Some(ScanError(c.target, n, delay));
      } else {
        Record(c, c.target, 0, None);
        report := None;
      }
    }

    /** A sweep launches, in order and once each, the targets whose gate is not in the future. */
    method Sweep(targets: seq<string>, now: Time) returns (launched: seq<string>)
      requires Valid()
      ensures launched == Filter(targets, Ready(history, base, max, now))
    {
      launched := [];
      for i := 0 to |targets|
        invariant launched == Filter(targets[..i], Ready(history, base, max, now))
      {
        var t := targets[i];
        var gate := GateOf(t);
        assert targets[..i + 1][..i] == targets[..i];
        if !(gate.Some? && now < gate.value) {
          launched := launched + [t];
        }
      }
      assert targets[..|targets|] == targets;
    }
  }

  ghost function Ready(h: seq<Completion>, base: int, max: int, now: Time): string -> bool {
    (t: string) => Gate(h, t, base, max).Some? ==> Gate(h, t, base, max).value <= now
  }

  /** The `i`-th completion is the last of its target, and a failure. */
  ghost predicate LastFailed(h: seq<Completion>, t: string, i: nat) {
    i < |h| && h[i].target == t && h[i].outcome == Failed && forall j :: i < j < |h| ==> h[j].target != t
  }

  lemma {:induction false} GateAfterLastFailure(h: seq<Completion>, t: string, base: int, max: int)
    returns (i: nat)
    requires Gate(h, t, base, max).Some?
    ensures LastFailed(h, t, i) && Streak(h, t) > 0
    ensures Gate(h, t, base, max).value == h[i].at + Loop(base, Streak(h, t) - 1, max)
  {
    var init, c := h[..|h| - 1], h[|h| - 1];
    if c.target == t {
      i := |h| - 1;
    } else {
      i := GateAfterLastFailure(init, t, base, max);
      assert forall j :: i < j < |init| ==> h[j] == init[j];
    }
  }

  lemma {:induction false} GateIffFailing(h: seq<Completion>, t: string, base: int, max: int)
    ensures Streak(h, t) == 0 <==> Gate(h, t, base, max).None?
  {
    if h == [] {
    } else {
      GateIffFailing(h[..|h| - 1], t, base, max);
    }
  }

  /** A target has a gate exactly while it is failing: its last failure plus the delay its streak
      earns. With a safe configuration that delay is the capped doubling, and so lies between the
      base and the cap unless the base is above it. */
  lemma GateBounds(h: seq<Completion>, t: string, base: int, max: int)
    ensures Streak(h, t) == 0 <==> Gate(h, t, base, max).None?
    ensures Gate(h, t, base, max).Some? ==>
              exists i: nat :: LastFailed(h, t, i)
                && var delay := Gate(h, t, base, max).value - h[i].at;
                   && delay == Loop(base, Streak(h, t) - 1, max)
                   && (SafeBackoff(base, max) && 0 < max ==>
                         delay == Min(Exp(base, Streak(h, t) - 1), max) && Min(base, max) <= delay <= max)
  {
    GateIffFailing(h, t, base, max);
    if Gate(h, t, base, max).Some? {
      var i := GateAfterLastFailure(h, t, base, max);
      if SafeBackoff(base, max) && 0 < max {
        SafeLoop(base, Streak(h, t) - 1, max);
        ExpGrows(base, Streak(h, t) - 1);
      }
    }
  }

  predicate Clears(c: Completion, t: string) { c.target == t && c.outcome != Failed }

  function OfTarget(t: string): Completion -> bool { (c: Completion) => c.target == t }

  /** The streak counts the target's completions behind the last one that cleared it, all failures. */
  lemma {:induction false} StreakMeaning(h: seq<Completion>, t: string, p: nat)
    requires p <= |h| && (p == 0 || Clears(h[p - 1], t))
    requires forall i :: p <= i < |h| ==> !Clears(h[i], t)
    ensures Streak(h, t) == |Filter(h[p..], OfTarget(t))|
  {
    if p == |h| {
    } else {
      var init := h[..|h| - 1];
      assert h[p..][..|h[p..]| - 1] == init[p..];
      StreakMeaning(init, t, p);
    }
  }

  /** A target is launched iff it is not failing, or the delay of its streak has passed since its last
      failure. */
  lemma ReadyIff(h: seq<Completion>, base: int, max: int, now: Time, t: string)
    ensures Ready(h, base, max, now)(t) <==>
            || Streak(h, t) == 0
            || exists i: nat :: LastFailed(h, t, i) && h[i].at + Loop(base, Streak(h, t) - 1, max) <= now
  {
    GateIffFailing(h, t, base, max);
    if Streak(h, t) > 0 {
      var i := GateAfterLastFailure(h, t, base, max);
      forall j: nat | LastFailed(h, t, j) ensures j == i { }
    }
  }

  // ----- the worker semaphore -----

  /** Where a scan is: waiting for a slot, between acquire and return, or back. */
  datatype Phase = Waiting | Holding | Done

  datatype Pool = Pool(tokens: nat, phases: map<nat, Phase>, contexts: map<nat, nat>, cancelled: set<nat>)

  /** Sweep, add-time and scan-now scans all take these steps, under their own contexts. */
  datatype PoolStep =
    | Launch(id: nat, ctx: nat)
    | Acquire(id: nat)      // the send on the semaphore went through
    | Abandon(id: nat)      // the context was done first
    | Return(id: nat)       // Collect and Reconcile over, the slot released
    | Cancel(ctx: nat)

  predicate Enabled(workers: nat, p: Pool, s: PoolStep) {
    match s
    case Launch(id, _) => id !in p.phases
    case Acquire(id) => id in p.phases && p.phases[id] == Waiting && p.tokens < workers
    case Abandon(id) => id in p.phases && p.phases[id] == Waiting && id in p.contexts && p.contexts[id] in p.cancelled
    case Return(id) => id in p.phases && p.phases[id] == Holding
    case Cancel(_) => true
  }

  /** A step that is not enabled does not happen. Releasing takes one token out, if there is one. */
  function Stepped(workers: nat, p: Pool, s: PoolStep): Pool {
    if !Enabled(workers, p, s) then p
    else
      match s
      case Launch(id, ctx) => p.(phases := p.phases[id := Waiting], contexts := p.contexts[id := ctx])
      case Acquire(id) => p.(phases := p.phases[id := Holding], tokens := p.tokens + 1)
      case Abandon(id) => p.(phases := p.phases[id := Done])
      case Return(id) =>
        p.(phases := p.phases[id := Done], tokens := if p.tokens > 0 then p.tokens - 1 else 0)
      case Cancel(ctx) => p.(cancelled := p.cancelled + {ctx})
  }

  function SteppedAll(workers: nat, steps: seq<PoolStep>): Pool {
    if steps == [] then Pool(0, map[], map[], {})
    else Stepped(workers, SteppedAll(workers, steps[..|steps| - 1]), steps[|steps| - 1])
  }

  function Holders(p: Pool): set<nat> {
    set id | id in p.phases && p.phases[id] == Holding
  }

  lemma PhaseChange(p: Pool, id: nat, phase: Phase, q: Pool)
    requires q.phases == p.phases[id := phase]
    ensures Holders(q) == if phase == Holding then Holders(p) + {id} else Holders(p) - {id}
  {
  }

  lemma StepKeepsTokens(workers: nat, p: Pool, s: PoolStep)
    requires p.tokens == |Holders(p)| <= workers
    ensures Stepped(workers, p, s).tokens == |Holders(Stepped(workers, p, s))| <= workers
  {
    var q := Stepped(workers, p, s);
    if Enabled(workers, p, s) {
      match s
      case Acquire(id) => PhaseChange(p, id, Holding, q); assert id !in Holders(p);
      case Return(id) => PhaseChange(p, id, Done, q); assert id in Holders(p);
      case Launch(id, _) => PhaseChange(p, id, Waiting, q); assert Holders(q) == Holders(p);
      case Abandon(id) => PhaseChange(p, id, Done, q); assert Holders(q) == Holders(p);
      case Cancel(_) => assert Holders(q) == Holders(p);
    }
  }

  /** Under every interleaving, the tokens are the scans between acquire and return, so at most
      `workers` of them run at once; a release always finds its token; and when no scan holds a
      slot, none is lost. */
  lemma {:induction false} AtMostWorkersAtOnce(workers: nat, steps: seq<PoolStep>)
    ensures var p := SteppedAll(workers, steps);
            && p.tokens == |Holders(p)| <= workers
            && (forall id :: Enabled(workers, p, Return(id)) ==> p.tokens > 0)
            && (Holders(p) == {} ==> p.tokens == 0)
  {
    if steps == [] {
    } else {
      AtMostWorkersAtOnce(workers, steps[..|steps| - 1]);
      StepKeepsTokens(workers, SteppedAll(workers, steps[..|steps| - 1]), steps[|steps| - 1]);
    }
    var p := SteppedAll(workers, steps);
    forall id | Enabled(workers, p, Return(id)) ensures p.tokens > 0 {
      assert id in Holders(p);
    }
  }

  /** In every reachable pool a waiting scan can start iff fewer than `workers` hold a slot, and
      exactly the holding scans can return. */
  lemma WhoCanMove(workers: nat, steps: seq<PoolStep>, id: nat)
    ensures var p := SteppedAll(workers, steps);
      && (Enabled(workers, p, Acquire(id)) <==> id in p.phases && p.phases[id] == Waiting && |Holders(p)| < workers)
      && (Enabled(workers, p, Return(id)) <==> id in Holders(p))
  {
    AtMostWorkersAtOnce(workers, steps);
  }

  /** What a step that happens does to the scans: one of them moves on, and all others stay. */
  lemma MovesOne(workers: nat, p: Pool, s: PoolStep)
    requires Enabled(workers, p, s)
    ensures var q := Stepped(workers, p, s);
      match s
      case Launch(id, _) => q.phases == p.phases[id := Waiting]
      case Acquire(id) => q.phases == p.phases[id := Holding] && p.phases[id] == Waiting
      case Abandon(id) => q.phases == p.phases[id := Done] && p.phases[id] == Waiting
      case Return(id) => q.phases == p.phases[id := Done] && p.phases[id] == Holding
      case Cancel(_) => q.phases == p.phases
  {
  }

  /** The context a scan was last launched under; scans are launched once. */
  ghost predicate LaunchedUnder(steps: seq<PoolStep>, id: nat, ctx: nat) {
    exists i :: 0 <= i < |steps| && steps[i] == Launch(id, ctx) && forall j :: 0 <= j < i ==> !Launches(steps[j], id)
  }

  predicate Launches(s: PoolStep, id: nat) { s.Launch? && s.id == id }

  lemma {:induction false} ContextsAreFirst(workers: nat, steps: seq<PoolStep>, id: nat, ctx: nat)
    ensures var p := SteppedAll(workers, steps);
      && (id in p.phases <==> id in p.contexts)
      && (id in p.contexts <==> exists i :: 0 <= i < |steps| && Launches(steps[i], id))
      && (id in p.contexts && p.contexts[id] == ctx <==> LaunchedUnder(steps, id, ctx))
      && (ctx in p.cancelled <==> Cancel(ctx) in steps)
  {
    if steps == [] {
    } else {
      var init, s := steps[..|steps| - 1], steps[|steps| - 1];
      assert steps == init + [s];
      ContextsAreFirst(workers, init, id, ctx);
      ContextsStep(init, s, id, ctx);
    }
  }

  lemma ContextsStep(init: seq<PoolStep>, s: PoolStep, id: nat, ctx: nat)
    ensures (exists i :: 0 <= i < |init + [s]| && Launches((init + [s])[i], id)) <==>
            Launches(s, id) || exists i :: 0 <= i < |init| && Launches(init[i], id)
    ensures LaunchedUnder(init + [s], id, ctx) <==>
            || LaunchedUnder(init, id, ctx)
            || (s == Launch(id, ctx) && !exists i :: 0 <= i < |init| && Launches(init[i], id))
  {
    var all := init + [s];
    assert all[|init|] == s;
    assert forall i :: 0 <= i < |init| ==> all[i] == init[i];
    if LaunchedUnder(init, id, ctx) {
      var i :| 0 <= i < |init| && init[i] == Launch(id, ctx) && forall j :: 0 <= j < i ==> !Launches(init[j], id);
      assert all[i] == Launch(id, ctx);
    }
    if LaunchedUnder(all, id, ctx) {
      var i :| 0 <= i < |all| && all[i] == Launch(id, ctx) && forall j :: 0 <= j < i ==> !Launches(all[j], id);
      if i < |init| { assert init[i] == Launch(id, ctx); }
    }
  }

  /** A waiting scan can give up iff the context it was launched under is cancelled. */
  lemma AbandonIff(workers: nat, steps: seq<PoolStep>, id: nat)
    ensures var p := SteppedAll(workers, steps);
      Enabled(workers, p, Abandon(id)) <==>
        && id in p.phases && p.phases[id] == Waiting
        && exists ctx :: LaunchedUnder(steps, id, ctx) && Cancel(ctx) in steps
  {
    var p := SteppedAll(workers, steps);
    forall ctx ensures (id in p.phases <==> id in p.contexts)
      && (id in p.contexts && p.contexts[id] == ctx <==> LaunchedUnder(steps, id, ctx))
      && (ctx in p.cancelled <==> Cancel(ctx) in steps)
    {
      ContextsAreFirst(workers, steps, id, ctx);
    }
  }
}
