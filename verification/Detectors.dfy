/** Sign-in detections over one fetched window: tenant/signin.go. */
module Detectors {
  import opened Core
  import opened Seqs

  datatype SignIn = SignIn(
    userEmail: string,
    at: Time,
    success: bool,
    country: string,
    ip: string,
    flagged: bool)  // the provider's own suspicious verdict

  const HOUR: int := 3_600_000_000_000
  const SPRAY_MIN_FAILURES := 10
  const SPRAY_MIN_ACCOUNTS := 5

  /** Case folding: `lower` for addresses; two country names are equal under folding iff `country`
      gives them the same representative. */
  datatype Folding = Folding(lower: string -> string, country: string -> string)

  // ----- sorting by time -----

  ghost predicate Sorted(s: seq<SignIn>) {
    forall i, j :: 0 <= i < j < |s| ==> s[i].at <= s[j].at
  }

  lemma InsertedInOrder(s: seq<SignIn>, e: SignIn, j: nat)
    requires Sorted(s) && j <= |s|
    requires forall k :: j <= k < |s| ==> e.at < s[k].at
    requires j > 0 ==> s[j - 1].at <= e.at
    ensures Sorted(s[..j] + [e] + s[j..])
  {
    var t := s[..j] + [e] + s[j..];
    forall u, v | 0 <= u < v < |t| ensures t[u].at <= t[v].at {
      var a, b := if u < j then u else u - 1, if v < j then v else v - 1;
      assert u != j ==> t[u] == s[a];
      assert v != j ==> t[v] == s[b];
    }
  }

  lemma InsertedContent(s: seq<SignIn>, e: SignIn, j: nat)
    requires j <= |s|
    ensures multiset(s[..j] + [e] + s[j..]) == multiset(s) + multiset{e}
  {
    assert s == s[..j] + s[j..];
  }

  method Insert(s: seq<SignIn>, e: SignIn) returns (t: seq<SignIn>)
    requires Sorted(s)
    ensures Sorted(t) && multiset(t) == multiset(s) + multiset{e}
  {
    var j := |s|;
    while j > 0 && e.at < s[j - 1].at
      invariant 0 <= j <= |s|
      invariant forall k :: j <= k < |s| ==> e.at < s[k].at
    {
      j := j - 1;
    }
    InsertedInOrder(s, e, j);
    InsertedContent(s, e, j);
    t := s[..j] + [e] + s[j..];
  }

  /** sort.Slice by time. Only order and content are promised, so callers see any order of ties. */
  method SortByTime(events: seq<SignIn>) returns (sorted: seq<SignIn>)
    ensures Sorted(sorted) && multiset(sorted) == multiset(events)
  {
    sorted := [];
    for i := 0 to |events|
      invariant Sorted(sorted) && multiset(sorted) == multiset(events[..i])
    {
      sorted := Insert(sorted, events[i]);
      assert events[..i + 1] == events[..i] + [events[i]];
    }
    assert events[..|events|] == events;
  }

  function Before(t: Time): SignIn -> bool { (e: SignIn) => e.at < t }

  lemma SameMembers(s: seq<SignIn>, t: seq<SignIn>)
    requires multiset(s) == multiset(t)
    ensures forall e :: e in s <==> e in t
  {
    assert forall e :: e in s <==> e in multiset(s);
    assert forall e :: e in t <==> e in multiset(t);
  }

  lemma SortedJoin(x: seq<SignIn>, y: seq<SignIn>, t: Time)
    requires Sorted(x) && Sorted(y)
    requires (forall e :: e in x ==> e.at <= t) && (forall e :: e in y ==> t <= e.at)
    ensures Sorted(x + y)
  {
    var s := x + y;
    forall i, j | 0 <= i < j < |s| ensures s[i].at <= s[j].at {
      if i < |x| <= j { assert x[i] in x && y[j - |x|] in y; }
    }
  }

  lemma {:induction false} Inserted(s: seq<SignIn>, e: SignIn) returns (t: seq<SignIn>)
    requires Sorted(s)
    ensures Sorted(t) && multiset(t) == multiset(s) + multiset{e}
  {
    var n := |s|;
    if s == [] || s[n - 1].at <= e.at {
      InsertedInOrder(s, e, n);
      t := s + [e];
    } else {
      var init := Inserted(s[..n - 1], e);
      assert s == s[..n - 1] + [s[n - 1]];
      InsertedBefore(s[..n - 1], e, init, s[n - 1]);
      t := init + [s[n - 1]];
    }
  }

  lemma InsertedBefore(s: seq<SignIn>, e: SignIn, t: seq<SignIn>, last: SignIn)
    requires Sorted(s + [last]) && e.at <= last.at && Sorted(t) && multiset(t) == multiset(s) + multiset{e}
    ensures Sorted(t + [last])
  {
    forall x | x in t ensures x.at <= last.at {
      assert x in multiset(t);
      if x != e {
        var i :| 0 <= i < |s| && s[i] == x;
        assert (s + [last])[i].at <= (s + [last])[|s|].at;
      }
    }
    SortedJoin(t, [last], last.at);
  }

  /** Any multiset of events can be put in time order. */
  lemma {:induction false} InTimeOrder(events: multiset<SignIn>) returns (s: seq<SignIn>)
    ensures Sorted(s) && multiset(s) == events
    decreases |events|
  {
    if events == multiset{} {
      s := [];
    } else {
      var e :| e in events;
      var rest := InTimeOrder(events - multiset{e});
      s := Inserted(rest, e);
    }
  }

  lemma MembersInOrder(s: seq<SignIn>, m: multiset<SignIn>)
    requires multiset(s) == m
    ensures forall e :: e in s <==> e in m
  {
  }

  lemma SplitAtCounts(group: seq<SignIn>, x: SignIn) returns (n: multiset<SignIn>, r: multiset<SignIn>)
    requires x in group
    ensures n + multiset{x} + r == multiset(group)
    ensures forall e :: e in n <==> e in group && e.at < x.at
    ensures forall e :: e in r ==> x.at <= e.at
  {
    var m := multiset(group);
    n := multiset(Filter(group, Before(x.at)));
    FilterCount(group, Before(x.at));
    assert n + multiset{x} <= m;
    r := m - n - multiset{x};
    forall e ensures e in n <==> e in group && e.at < x.at { assert e in group <==> e in m; }
  }

  /** An order that puts one event first of its instant. */
  lemma SplitAt(group: seq<SignIn>, x: SignIn) returns (early: seq<SignIn>, late: seq<SignIn>)
    requires x in group
    ensures Sorted(early + [x] + late) && multiset(early + [x] + late) == multiset(group)
    ensures forall e :: e in early ==> e in group && e.at < x.at
  {
    var n, r := SplitAtCounts(group, x);
    early := InTimeOrder(n);
    late := InTimeOrder(r);
    MembersInOrder(early, n);
    MembersInOrder(late, r);
    SortedJoin(early, [x], x.at);
    SortedJoin(early + [x], late, x.at);
  }

  // ----- password spray: the order-free definition -----

  function Accounts(fold: Folding, burst: multiset<SignIn>): set<string> {
    set e | e in burst :: fold.lower(e.userEmail)
  }

  /** Enough failures over enough accounts, all within one hour of each other. */
  ghost predicate IsSpray(fold: Folding, burst: multiset<SignIn>) {
    && |burst| >= SPRAY_MIN_FAILURES
    && |Accounts(fold, burst)| >= SPRAY_MIN_ACCOUNTS
    && (forall e :: e in burst ==> !e.success)
    && (forall e, f :: e in burst && f in burst ==> f.at - e.at <= HOUR)
  }

  /** A success not before the earliest failure of the burst. */
  ghost predicate LandsAfter(burst: multiset<SignIn>, landed: SignIn) {
    landed.success && exists e :: e in burst && (forall f :: f in burst ==> e.at <= f.at) && e.at <= landed.at
  }

  ghost predicate SprayLanded(fold: Folding, log: multiset<SignIn>) {
    exists burst: multiset<SignIn>, landed: SignIn ::
      burst <= log && landed in log && IsSpray(fold, burst) && LandsAfter(burst, landed)
  }

  // ----- password spray: windows -----

  /** Failures in the hour that starts at `start`. */
  function InBurst(start: Time): SignIn -> bool {
    (e: SignIn) => !e.success && start <= e.at <= start + HOUR
  }

  function Burst(events: seq<SignIn>, start: Time): multiset<SignIn> {
    multiset(Filter(events, InBurst(start)))
  }

  predicate Qualifies(fold: Folding, events: seq<SignIn>, start: Time) {
    |Burst(events, start)| >= SPRAY_MIN_FAILURES && |Accounts(fold, Burst(events, start))| >= SPRAY_MIN_ACCOUNTS
  }

  lemma BurstCount(events: seq<SignIn>, start: Time)
    ensures forall e :: Burst(events, start)[e] == if InBurst(start)(e) then multiset(events)[e] else 0
  {
    FilterCount(events, InBurst(start));
  }

  lemma BurstOfPermutation(s: seq<SignIn>, t: seq<SignIn>, start: Time)
    requires multiset(s) == multiset(t)
    ensures Burst(s, start) == Burst(t, start)
  {
    BurstCount(s, start);
    BurstCount(t, start);
  }

  lemma MoreEvidence(fold: Folding, a: multiset<SignIn>, b: multiset<SignIn>)
    requires a <= b
    ensures |a| <= |b| && |Accounts(fold, a)| <= |Accounts(fold, b)|
  {
    assert b == a + (b - a);
    var x, y := Accounts(fold, a), Accounts(fold, b);
    assert x <= y;
    assert y == x + (y - x);
  }

  /** A burst starting no earlier within a suffix is part of the whole one. */
  lemma SuffixBurst(events: seq<SignIn>, k: nat, start: Time)
    requires k <= |events|
    ensures Burst(events[k..], start) <= Burst(events, start)
    ensures (forall e :: e in events[..k] ==> !InBurst(start)(e)) ==> Burst(events[k..], start) == Burst(events, start)
  {
    FilterConcat(events[..k], events[k..], InBurst(start));
    assert events == events[..k] + events[k..];
    if forall e :: e in events[..k] ==> !InBurst(start)(e) {
      FilterNone(events[..k], InBurst(start));
      assert [] + Filter(events[k..], InBurst(start)) == Filter(events[k..], InBurst(start));
    }
  }

  /** The failure at `i` opens a qualifying window among the events from `i` on. */
  predicate Opens(fold: Folding, events: seq<SignIn>, i: nat)
    requires i < |events|
  {
    !events[i].success && Qualifies(fold, events[i..], events[i].at)
  }

  /** Ties: an earlier failure at the same instant opens a window at least as large. */
  lemma EarlierTieOpens(fold: Folding, events: seq<SignIn>, k: nat, i: nat)
    requires k <= i < |events| && !events[k].success && events[k].at == events[i].at && Opens(fold, events, i)
    ensures Opens(fold, events, k)
  {
    assert events[k..][i - k..] == events[i..];
    SuffixBurst(events[k..], i - k, events[i].at);
    MoreEvidence(fold, Burst(events[i..], events[i].at), Burst(events[k..], events[k].at));
  }

  /** The first opening failure sees the whole burst of its hour, whatever the order of ties. */
  lemma FirstOpeningSeesAll(fold: Folding, events: seq<SignIn>, i: nat)
    requires Sorted(events) && i < |events| && Opens(fold, events, i)
    requires forall k :: 0 <= k < i ==> !Opens(fold, events, k)
    ensures Burst(events[i..], events[i].at) == Burst(events, events[i].at)
  {
    forall e | e in events[..i] ensures !InBurst(events[i].at)(e) {
      var k :| 0 <= k < i && events[k] == e;
      if InBurst(events[i].at)(e) { EarlierTieOpens(fold, events, k, i); }
    }
    SuffixBurst(events, i, events[i].at);
  }

  /** A qualifying hour that starts at a failure is opened by an event of that instant. */
  lemma QualifyingIsOpened(fold: Folding, events: seq<SignIn>, start: Time) returns (k: nat)
    requires Sorted(events) && Qualifies(fold, events, start)
    requires exists e :: e in events && !e.success && e.at == start
    ensures k < |events| && events[k].at == start && Opens(fold, events, k)
  {
    var e :| e in events && !e.success && e.at == start;
    var j :| 0 <= j < |events| && events[j] == e;
    k := 0;
    while !(!events[k].success && events[k].at == start)
      invariant 0 <= k <= j
      invariant forall i :: 0 <= i < k ==> events[i].success || events[i].at != start
      decreases j - k
    {
      k := k + 1;
    }
    forall e | e in events[..k] ensures !InBurst(start)(e) {
      var i :| 0 <= i < k && events[i] == e;
      assert events[i].at <= events[k].at;
    }
    SuffixBurst(events, k, start);
  }

  lemma QualifyingNotBefore(fold: Folding, events: seq<SignIn>, i: nat, start: Time)
    requires Sorted(events) && i < |events| && forall k :: 0 <= k < i ==> !Opens(fold, events, k)
    requires Qualifies(fold, events, start)
    requires exists e :: e in events && !e.success && e.at == start
    ensures events[i].at <= start
  {
    var k := QualifyingIsOpened(fold, events, start);
  }

  /** What a report says: the earliest failure whose hour qualifies, its whole burst, and the first
      success from then on. */
  datatype SprayHit = SprayHit(start: Time, failures: nat, accounts: nat, landed: SignIn)

  ghost predicate Describes(fold: Folding, events: seq<SignIn>, hit: SprayHit) {
    && (exists e :: e in events && !e.success && e.at == hit.start)
    && Qualifies(fold, events, hit.start)
    && (forall e :: e in events && !e.success && e.at < hit.start ==> !Qualifies(fold, events, e.at))
    && hit.failures == |Burst(events, hit.start)|
    && hit.accounts == |Accounts(fold, Burst(events, hit.start))|
    && hit.landed in events && hit.landed.success && hit.start <= hit.landed.at
    && (forall e :: e in events && e.success && hit.start <= e.at ==> hit.landed.at <= e.at)
  }

  /** Reports on the same events agree on everything but which of several simultaneous successes
      is named: the order of ties in the sort does not show. */
  lemma SprayReportIsDetermined(fold: Folding, s: seq<SignIn>, t: seq<SignIn>, a: SprayHit, b: SprayHit)
    requires multiset(s) == multiset(t) && Describes(fold, s, a) && Describes(fold, t, b)
    ensures a.start == b.start && a.failures == b.failures && a.accounts == b.accounts
    ensures a.landed.at == b.landed.at
  {
    SameMembers(s, t);
    BurstOfPermutation(s, t, a.start);
    BurstOfPermutation(s, t, b.start);
    var e :| e in s && !e.success && e.at == a.start;
    var f :| f in t && !f.success && f.at == b.start;
    assert a.start == b.start;
  }

  /** The success the second loop finds on one order of the events. */
  ghost predicate FirstSuccess(events: seq<SignIn>, start: Time, landed: SignIn) {
    exists j: nat :: FirstSuccessAt(events, start, landed, j)
  }

  ghost predicate FirstSuccessAt(events: seq<SignIn>, start: Time, landed: SignIn, j: nat) {
    && j < |events| && events[j] == landed && landed.success && start <= landed.at
    && forall k :: 0 <= k < j ==> !(events[k].success && start <= events[k].at)
  }

  /** Some order of simultaneous events makes this the report. */
  ghost predicate SprayShown(fold: Folding, group: seq<SignIn>, hit: SprayHit) {
    && Describes(fold, group, hit)
    && exists events :: Sorted(events) && multiset(events) == multiset(group)
                        && FirstSuccess(events, hit.start, hit.landed)
  }

  /** Every described report is shown for some order. */
  lemma DescribedIsShown(fold: Folding, group: seq<SignIn>, hit: SprayHit)
    requires Describes(fold, group, hit)
    ensures SprayShown(fold, group, hit)
  {
    var landed := hit.landed;
    var early, late := SplitAt(group, landed);
    var events := early + [landed] + late;
    assert events[|early|] == landed;
    forall k | 0 <= k < |early| ensures !(events[k].success && hit.start <= events[k].at) {
      assert events[k] in early;
    }
    assert FirstSuccessAt(events, hit.start, landed, |early|);
  }

  /** Another user's success at the instant of the landing. */
  ghost predicate RivalLanding(fold: Folding, group: seq<SignIn>, hit: SprayHit, e: SignIn) {
    && Describes(fold, group, hit) && e in group && e.success
    && e.at == hit.landed.at && e.userEmail != hit.landed.userEmail
  }

  /** The user named as compromised is the same for every order of ties exactly when no other user
      signed in at that very instant. */
  lemma CompromisedUserIsDeterminedIff(fold: Folding, group: seq<SignIn>)
    ensures (forall a, b :: SprayShown(fold, group, a) && SprayShown(fold, group, b)
               ==> a.landed.userEmail == b.landed.userEmail)
       <==> !exists hit, e :: RivalLanding(fold, group, hit, e)
  {
    if hit, e :| RivalLanding(fold, group, hit, e) {
      DescribedIsShown(fold, group, hit);
      DescribedIsShown(fold, group, hit.(landed := e));
    }
    if a, b :| SprayShown(fold, group, a) && SprayShown(fold, group, b) && a.landed.userEmail != b.landed.userEmail {
      SprayReportIsDetermined(fold, group, group, a, b);
      assert RivalLanding(fold, group, a, b.landed);
    }
  }

  lemma QualifyingBurstIsSpray(fold: Folding, events: seq<SignIn>, start: Time)
    requires Qualifies(fold, events, start)
    ensures IsSpray(fold, Burst(events, start)) && Burst(events, start) <= multiset(events)
  {
    BurstCount(events, start);
  }

  lemma BurstLanded(events: seq<SignIn>, start: Time, landed: SignIn)
    requires exists e :: e in events && !e.success && e.at == start
    requires landed.success && start <= landed.at
    ensures LandsAfter(Burst(events, start), landed)
  {
    var e :| e in events && !e.success && e.at == start;
    BurstCount(events, start);
    assert e in multiset(events) && InBurst(start)(e);
    assert e in Burst(events, start);
  }

  /** A described report is a landed spray. */
  lemma DescribedLanded(fold: Folding, events: seq<SignIn>, hit: SprayHit)
    requires Describes(fold, events, hit)
    ensures SprayLanded(fold, multiset(events))
  {
    QualifyingBurstIsSpray(fold, events, hit.start);
    BurstLanded(events, hit.start, hit.landed);
    assert hit.landed in multiset(events);
  }

  /** Any spray that landed qualifies from its own earliest failure on. */
  lemma LandedQualifies(fold: Folding, events: seq<SignIn>, burst: multiset<SignIn>, landed: SignIn)
    returns (start: Time)
    requires burst <= multiset(events) && IsSpray(fold, burst) && LandsAfter(burst, landed)
    ensures exists e :: e in events && !e.success && e.at == start
    ensures Qualifies(fold, events, start) && start <= landed.at
  {
    var e :| e in burst && (forall f :: f in burst ==> e.at <= f.at) && e.at <= landed.at;
    start := e.at;
    assert e in multiset(events) && e in events;
    BurstCount(events, start);
    assert burst <= Burst(events, start);
    MoreEvidence(fold, burst, Burst(events, start));
  }

  // ----- password spray: the loops -----

  /** The inner window loop: failures and accounts of the events from a failure on, within the hour. */
  method CountBurst(fold: Folding, rest: seq<SignIn>) returns (failures: nat, accounts: set<string>)
    requires Sorted(rest) && rest != []
    ensures failures == |Burst(rest, rest[0].at)|
    ensures accounts == Accounts(fold, Burst(rest, rest[0].at))
  {
    failures, accounts := 0, {};
    ghost var burst: seq<SignIn> := [];
    var j := 0;
    while j < |rest| && rest[j].at <= rest[0].at + HOUR
      invariant 0 <= j <= |rest|
      invariant burst == Filter(rest[..j], InBurst(rest[0].at))
      invariant failures == |burst|
      invariant accounts == Accounts(fold, multiset(burst))
    {
      BurstGrows(rest, j);
      if !rest[j].success {
        OneMoreAccount(fold, burst, rest[j]);
        failures := failures + 1;
        accounts := accounts + {fold.lower(rest[j].userEmail)};
        burst := burst + [rest[j]];
      }
      j := j + 1;
    }
    BurstEnds(rest, j);
    BurstSize(rest, burst);
  }

  lemma BurstSize(rest: seq<SignIn>, burst: seq<SignIn>)
    requires rest != [] && burst == Filter(rest, InBurst(rest[0].at))
    ensures |Burst(rest, rest[0].at)| == |burst| && Burst(rest, rest[0].at) == multiset(burst)
  {
  }

  lemma BurstGrows(rest: seq<SignIn>, j: nat)
    requires Sorted(rest) && j < |rest| && rest[j].at <= rest[0].at + HOUR
    ensures Filter(rest[..j + 1], InBurst(rest[0].at))
         == if rest[j].success then Filter(rest[..j], InBurst(rest[0].at))
            else Filter(rest[..j], InBurst(rest[0].at)) + [rest[j]]
  {
    assert rest[..j + 1] == rest[..j] + [rest[j]];
    FilterNext(rest[..j], rest[j], InBurst(rest[0].at));
  }

  lemma BurstEnds(rest: seq<SignIn>, j: nat)
    requires Sorted(rest) && j <= |rest| && rest != []
    requires j < |rest| ==> rest[0].at + HOUR < rest[j].at
    ensures Filter(rest, InBurst(rest[0].at)) == Filter(rest[..j], InBurst(rest[0].at))
  {
    var p := InBurst(rest[0].at);
    assert rest == rest[..j] + rest[j..];
    FilterConcat(rest[..j], rest[j..], p);
    FilterNone(rest[j..], p);
  }

  lemma OneMoreAccount(fold: Folding, s: seq<SignIn>, e: SignIn)
    ensures Accounts(fold, multiset(s + [e])) == Accounts(fold, multiset(s)) + {fold.lower(e.userEmail)}
  {
    assert multiset(s + [e]) == multiset(s) + multiset{e};
  }

  lemma FilterNext(s: seq<SignIn>, e: SignIn, p: SignIn -> bool)
    ensures Filter(s + [e], p) == if p(e) then Filter(s, p) + [e] else Filter(s, p)
  {
    assert (s + [e])[..|s|] == s;
  }

  lemma {:induction false} FilterNone(s: seq<SignIn>, p: SignIn -> bool)
    requires forall e :: e in s ==> !p(e)
    ensures Filter(s, p) == []
  {
    if s == [] {
    } else {
      FilterNone(s[..|s| - 1], p);
    }
  }

  /** The first success not before `start`. */
  method FirstLanding(events: seq<SignIn>, start: Time) returns (landed: Option<SignIn>)
    requires Sorted(events)
    ensures landed.None? <==> forall e :: e in events && e.success ==> e.at < start
    ensures landed.Some? ==>
      && landed.value in events && FirstSuccess(events, start, landed.value)
      && forall e :: e in events && e.success && start <= e.at ==> landed.value.at <= e.at
  {
    for j := 0 to |events|
      invariant forall k :: 0 <= k < j ==> !(events[k].success && start <= events[k].at)
    {
      if events[j].success && !(events[j].at < start) {
        assert FirstSuccessAt(events, start, events[j], j);
        return Some(events[j]);
      }
    }
    return None;
  }

  /** One address: sort, slide, and stop at the first qualifying burst, landed or not. */
  method SprayFromAddress(fold: Folding, group: seq<SignIn>) returns (hit: Option<SprayHit>)
    ensures hit.Some? <==> SprayLanded(fold, multiset(group))
    ensures hit.Some? ==> SprayShown(fold, group, hit.value)
  {
    var events := SortByTime(group);
    for i := 0 to |events|
      invariant forall k :: 0 <= k < i ==> !Opens(fold, events, k)
    {
      if !events[i].success {
        var failures, accounts := CountBurst(fold, events[i..]);
        if failures >= SPRAY_MIN_FAILURES && |accounts| >= SPRAY_MIN_ACCOUNTS {
          FirstOpeningSeesAll(fold, events, i);
          var landed := FirstLanding(events, events[i].at);
          if landed.None? {
            NeverLanded(fold, group, events, i);
            return None;
          }
          hit := Some(SprayHit(events[i].at, failures, |accounts|, landed.value));
          FirstOpeningDescribes(fold, group, events, i, hit.value);
          DescribedLanded(fold, group, hit.value);
          return;
        }
      }
    }
    NothingOpened(fold, group, events);
    return None;
  }

  lemma FirstOpeningDescribes(fold: Folding, group: seq<SignIn>, events: seq<SignIn>, i: nat, hit: SprayHit)
    requires multiset(events) == multiset(group) && Sorted(events) && i < |events| && Opens(fold, events, i)
    requires forall k :: 0 <= k < i ==> !Opens(fold, events, k)
    requires hit.start == events[i].at
    requires hit.failures == |Burst(events, hit.start)| && hit.accounts == |Accounts(fold, Burst(events, hit.start))|
    requires hit.landed in events && hit.landed.success && hit.start <= hit.landed.at
    requires forall e :: e in events && e.success && hit.start <= e.at ==> hit.landed.at <= e.at
    ensures Describes(fold, group, hit)
  {
    SameMembers(events, group);
    BurstOfPermutation(events, group, hit.start);
    FirstOpeningSeesAll(fold, events, i);
    assert events[i] in group;
    forall e | e in group && !e.success && e.at < hit.start ensures !Qualifies(fold, group, e.at) {
      BurstOfPermutation(events, group, e.at);
      if Qualifies(fold, events, e.at) { QualifyingNotBefore(fold, events, i, e.at); }
    }
  }

  /** Giving up on a burst that never landed loses nothing: every later one starts later still. */
  lemma NeverLanded(fold: Folding, group: seq<SignIn>, events: seq<SignIn>, i: nat)
    requires multiset(events) == multiset(group) && Sorted(events) && i < |events| && Opens(fold, events, i)
    requires forall k :: 0 <= k < i ==> !Opens(fold, events, k)
    requires forall e :: e in events && e.success ==> e.at < events[i].at
    ensures !SprayLanded(fold, multiset(group))
  {
    forall burst: multiset<SignIn>, landed: SignIn
      | burst <= multiset(events) && landed in events && IsSpray(fold, burst)
      ensures !LandsAfter(burst, landed)
    {
      if LandsAfter(burst, landed) {
        var start := LandedQualifies(fold, events, burst, landed);
        QualifyingNotBefore(fold, events, i, start);
      }
    }
    assert forall e :: e in multiset(events) ==> e in events;
  }

  lemma NothingOpened(fold: Folding, group: seq<SignIn>, events: seq<SignIn>)
    requires multiset(events) == multiset(group) && Sorted(events)
    requires forall k :: 0 <= k < |events| ==> !Opens(fold, events, k)
    ensures !SprayLanded(fold, multiset(group))
  {
    forall burst: multiset<SignIn>, landed: SignIn | burst <= multiset(events) && IsSpray(fold, burst)
      ensures !LandsAfter(burst, landed)
    {
      if LandsAfter(burst, landed) {
        var start := LandedQualifies(fold, events, burst, landed);
        var k := QualifyingIsOpened(fold, events, start);
      }
    }
  }

  function FromIp(ip: string): SignIn -> bool {
    (e: SignIn) => e.ip == ip
  }

  /** One address's group holds its events, as often as the log does, and no other. */
  lemma AddressGroup(signIns: seq<SignIn>, ip: string)
    ensures forall e :: multiset(Filter(signIns, FromIp(ip)))[e] == if e.ip == ip then multiset(signIns)[e] else 0
  {
    FilterCount(signIns, FromIp(ip));
  }

  /** checkSprayLanded: one report per address that landed a spray, and no other. Events without an
      address are not judged. */
  method CheckSprayLanded(fold: Folding, signIns: seq<SignIn>) returns (out: map<string, SprayHit>)
    ensures forall ip :: ip in out <==>
              ip != "" && SprayLanded(fold, multiset(Filter(signIns, FromIp(ip))))
    ensures forall ip :: ip in out ==> SprayShown(fold, Filter(signIns, FromIp(ip)), out[ip])
  {
    var byIP: map<string, seq<SignIn>> := map[];
    for i := 0 to |signIns|
      invariant forall ip :: ip in byIP ==> ip != "" && byIP[ip] == Filter(signIns[..i], FromIp(ip))
      invariant forall ip :: ip != "" && ip !in byIP ==> Filter(signIns[..i], FromIp(ip)) == []
    {
      var e := signIns[i];
      forall ip ensures Filter(signIns[..i + 1], FromIp(ip))
                     == if e.ip == ip then Filter(signIns[..i], FromIp(ip)) + [e] else Filter(signIns[..i], FromIp(ip))
      {
        assert signIns[..i + 1] == signIns[..i] + [e];
        FilterNext(signIns[..i], e, FromIp(ip));
      }
      if e.ip != "" {
        byIP := byIP[e.ip := (if e.ip in byIP then byIP[e.ip] else []) + [e]];
      }
    }
    assert signIns[..|signIns|] == signIns;
    out := map[];
    var todo := byIP.Keys;
    while todo != {}
      invariant todo <= byIP.Keys
      invariant forall ip :: ip in out <==>
                  ip in byIP && ip !in todo && SprayLanded(fold, multiset(Filter(signIns, FromIp(ip))))
      invariant forall ip :: ip in out ==> SprayShown(fold, Filter(signIns, FromIp(ip)), out[ip])
      decreases todo
    {
      var ip :| ip in todo;
      todo := todo - {ip};
      var hit := SprayFromAddress(fold, byIP[ip]);
      if hit.Some? { out := out[ip := hit.value]; }
    }
    forall ip | ip != "" && ip !in byIP ensures !SprayLanded(fold, multiset(Filter(signIns, FromIp(ip)))) {
      NothingOpened(fold, [], []);
    }
  }
}
