/** Country hop and provider-flagged sign-ins: checkCountryHop in tenant/signin.go. */
module CountryHop {
  import opened Core
  import opened Seqs
  import opened Detectors

  datatype Hop = Hop(first: SignIn, second: SignIn)

  predicate BearsCountry(e: SignIn) { e.country != "" }

  predicate Differ(fold: Folding, a: SignIn, b: SignIn) {
    fold.country(a.country) != fold.country(b.country)
  }

  /** Two country-bearing events, in either order, less than an hour apart in different countries. */
  predicate Hops(fold: Folding, a: SignIn, b: SignIn) {
    BearsCountry(a) && BearsCountry(b) && Differ(fold, a, b) && -HOUR < b.at - a.at < HOUR
  }

  ghost predicate Hopped(fold: Folding, events: seq<SignIn>) {
    exists a, b :: a in events && b in events && Hops(fold, a, b)
  }

  /** What a report shows: a real pair in time order, and no hop completed before it did. */
  ghost predicate Shows(fold: Folding, events: seq<SignIn>, hop: Hop) {
    && hop.first in events && hop.second in events
    && Hops(fold, hop.first, hop.second) && hop.first.at <= hop.second.at
    && (forall a, b :: a in events && b in events && Hops(fold, a, b) && a.at <= b.at
          ==> hop.second.at <= b.at)
  }

  /** No hop among the first `n` sorted events. */
  ghost predicate Quiet(fold: Folding, events: seq<SignIn>, n: nat)
    requires n <= |events|
  {
    forall p, q :: 0 <= p < q < n ==> !Hops(fold, events[p], events[q])
  }

  /** Index of the last country-bearing event before `n`. */
  ghost predicate LastBearing(events: seq<SignIn>, n: nat, last: Option<nat>)
    requires n <= |events|
  {
    match last
    case None => forall p :: 0 <= p < n ==> !BearsCountry(events[p])
    case Some(l) => l < n && BearsCountry(events[l]) && forall p :: l < p < n ==> !BearsCountry(events[p])
  }

  /** Where the loop stops on one order of the events: the first hop between neighbours. */
  ghost predicate StopsAt(fold: Folding, events: seq<SignIn>, l: nat, n: nat) {
    && l < n < |events| && Sorted(events) && Quiet(fold, events, n)
    && LastBearing(events, n, Some(l)) && Hops(fold, events[l], events[n])
  }

  /** Some order of simultaneous events makes the loop stop at this pair. */
  ghost predicate Shown(fold: Folding, group: seq<SignIn>, hop: Hop) {
    exists events, l: nat, n: nat :: multiset(events) == multiset(group) && StopsAt(fold, events, l, n)
                                     && hop == Hop(events[l], events[n])
  }

  /** Comparing with the previous country-bearing event alone misses nothing. */
  lemma NeighbourSuffices(fold: Folding, events: seq<SignIn>, n: nat, last: Option<nat>)
    requires Sorted(events) && n < |events| && Quiet(fold, events, n) && LastBearing(events, n, last)
    requires BearsCountry(events[n]) && last.Some? ==> !Hops(fold, events[last.value], events[n])
    ensures Quiet(fold, events, n + 1)
  {
    forall p | 0 <= p < n ensures !Hops(fold, events[p], events[n]) {
      if BearsCountry(events[p]) && BearsCountry(events[n]) && Differ(fold, events[p], events[n]) {
        var l := last.value;
        assert events[p].at <= events[l].at <= events[n].at;
        if !Differ(fold, events[l], events[n]) {
          assert !Hops(fold, events[p], events[l]);
        }
      }
    }
  }

  lemma QuietMeansNone(fold: Folding, group: seq<SignIn>, events: seq<SignIn>)
    requires multiset(group) == multiset(events) && Quiet(fold, events, |events|)
    ensures !Hopped(fold, group)
  {
    SameMembers(group, events);
    forall a, b | a in group && b in group ensures !Hops(fold, a, b) {
      var p :| 0 <= p < |events| && events[p] == a;
      var q :| 0 <= q < |events| && events[q] == b;
      assert Hops(fold, events[p], events[q]) == Hops(fold, events[q], events[p]);
    }
  }

  lemma FirstHopShows(fold: Folding, group: seq<SignIn>, events: seq<SignIn>, l: nat, n: nat)
    requires multiset(group) == multiset(events) && Sorted(events) && l < n < |events|
    requires Quiet(fold, events, n) && Hops(fold, events[l], events[n])
    ensures Shows(fold, group, Hop(events[l], events[n])) && Hopped(fold, group)
  {
    SameMembers(group, events);
    assert events[l] in events && events[n] in events;
    forall a, b | a in group && b in group && Hops(fold, a, b) && a.at <= b.at ensures events[n].at <= b.at {
      var p :| 0 <= p < |events| && events[p] == a;
      var q :| 0 <= q < |events| && events[q] == b;
      assert Hops(fold, events[p], events[q]) == Hops(fold, events[q], events[p]);
      assert p < n && q < n ==> p == q;
      if q < n {
        assert events[p].at <= events[q].at && events[n].at <= events[p].at;
      }
    }
  }

  /** One user's successful sign-ins: sort, and compare each country-bearing event with the last. */
  method HopOfUser(fold: Folding, group: seq<SignIn>) returns (hop: Option<Hop>)
    ensures hop.Some? <==> Hopped(fold, group)
    ensures hop.Some? ==> Shown(fold, group, hop.value) && Shows(fold, group, hop.value)
  {
    var events := SortByTime(group);
    var last: Option<SignIn> := None;
    ghost var lastIndex: Option<nat> := None;
    for i := 0 to |events|
      invariant Quiet(fold, events, i) && LastBearing(events, i, lastIndex)
      invariant last.Some? == lastIndex.Some? && (last.Some? ==> last.value == events[lastIndex.value])
    {
      var e := events[i];
      if BearsCountry(e) {
        if last.Some? && Differ(fold, last.value, e) {
          var gap := e.at - last.value.at;
          assert 0 <= gap;
          if gap < HOUR {
            FirstHopShows(fold, group, events, lastIndex.value, i);
            assert StopsAt(fold, events, lastIndex.value, i);
            return Some(Hop(last.value, e));
          }
        }
        NeighbourSuffices(fold, events, i, lastIndex);
        last, lastIndex := Some(e), Some(i);
      } else {
        NeighbourSuffices(fold, events, i, lastIndex);
      }
    }
    QuietMeansNone(fold, group, events);
    return None;
  }

  predicate Suspicious(e: SignIn) { e.country == "" && e.flagged }

  ghost predicate Flagged(group: seq<SignIn>) {
    exists e :: e in group && Suspicious(e)
  }

  /** What a flag shows: the earliest suspicious event. */
  ghost predicate ShowsFlag(group: seq<SignIn>, shown: SignIn) {
    shown in group && Suspicious(shown) && forall e :: e in group && Suspicious(e) ==> shown.at <= e.at
  }

  /** The provider's own verdict: the earliest flagged event without a country. */
  method FlaggedOfUser(group: seq<SignIn>) returns (out: Option<SignIn>)
    ensures out.Some? <==> Flagged(group)
    ensures out.Some? ==> ShowsFlag(group, out.value)
  {
    var events := SortByTime(group);
    SameMembers(group, events);
    for i := 0 to |events|
      invariant forall k :: 0 <= k < i ==> !Suspicious(events[k])
    {
      if Suspicious(events[i]) {
        assert events[i] in events;
        return Some(events[i]);
      }
    }
    return None;
  }

  /** The successful sign-ins of one user, case folded. */
  function SuccessOf(fold: Folding, user: string): SignIn -> bool {
    (e: SignIn) => e.success && fold.lower(e.userEmail) == user
  }

  ghost predicate UserHopped(fold: Folding, signIns: seq<SignIn>, user: string) {
    exists a, b :: a in signIns && b in signIns && Hops(fold, a, b)
      && a.success && b.success && fold.lower(a.userEmail) == fold.lower(b.userEmail) == user
  }

  ghost predicate UserFlagged(fold: Folding, signIns: seq<SignIn>, user: string) {
    exists e :: e in signIns && e.success && fold.lower(e.userEmail) == user && e.country == "" && e.flagged
  }

  lemma FilterMembers(s: seq<SignIn>, p: SignIn -> bool)
    ensures forall e :: e in Filter(s, p) <==> e in s && p(e)
  {
    FilterCount(s, p);
    forall e ensures e in Filter(s, p) <==> e in s && p(e) {
      assert e in Filter(s, p) <==> e in multiset(Filter(s, p));
      assert e in s <==> e in multiset(s);
    }
  }

  /** One user's group holds their successful sign-ins, as often as the log does, and no other. */
  lemma UserGroup(fold: Folding, signIns: seq<SignIn>, user: string)
    ensures forall e :: multiset(Filter(signIns, SuccessOf(fold, user)))[e]
                     == if e.success && fold.lower(e.userEmail) == user then multiset(signIns)[e] else 0
  {
    FilterCount(signIns, SuccessOf(fold, user));
  }

  /** Group the successful sign-ins by folded user. */
  method GroupByUser(fold: Folding, signIns: seq<SignIn>) returns (byUser: map<string, seq<SignIn>>)
    ensures forall u :: u in byUser ==> byUser[u] == Filter(signIns, SuccessOf(fold, u))
    ensures forall u :: u !in byUser ==> Filter(signIns, SuccessOf(fold, u)) == []
  {
    byUser := map[];
    for i := 0 to |signIns|
      invariant forall u :: u in byUser ==> byUser[u] == Filter(signIns[..i], SuccessOf(fold, u))
      invariant forall u :: u !in byUser ==> Filter(signIns[..i], SuccessOf(fold, u)) == []
    {
      var e := signIns[i];
      var user := fold.lower(e.userEmail);
      forall u ensures Filter(signIns[..i + 1], SuccessOf(fold, u))
                    == Filter(signIns[..i], SuccessOf(fold, u)) + if e.success && user == u then [e] else []
      {
        assert signIns[..i + 1] == signIns[..i] + [e];
        FilterNext(signIns[..i], e, SuccessOf(fold, u));
      }
      if e.success {
        byUser := byUser[user := (if user in byUser then byUser[user] else []) + [e]];
      }
    }
    assert signIns[..|signIns|] == signIns;
  }

  /** checkCountryHop: a user is reported iff two of their successful, country-bearing sign-ins
      differ in country within an hour, and flagged iff the provider flagged one without a country. */
  method CheckCountryHop(fold: Folding, signIns: seq<SignIn>)
    returns (hops: map<string, Hop>, flagged: map<string, SignIn>)
    ensures forall u :: u in hops <==> UserHopped(fold, signIns, u)
    ensures forall u :: u in hops ==> var group := Filter(signIns, SuccessOf(fold, u));
              Shown(fold, group, hops[u]) && Shows(fold, group, hops[u])
    ensures forall u :: u in flagged <==> UserFlagged(fold, signIns, u)
    ensures forall u :: u in flagged ==> ShowsFlag(Filter(signIns, SuccessOf(fold, u)), flagged[u])
  {
    var byUser := GroupByUser(fold, signIns);
    hops, flagged := map[], map[];
    var todo := byUser.Keys;
    while todo != {}
      invariant todo <= byUser.Keys
      invariant forall u :: u in hops <==> u in byUser && u !in todo && Hopped(fold, byUser[u])
      invariant forall u :: u in hops ==> Shown(fold, byUser[u], hops[u]) && Shows(fold, byUser[u], hops[u])
      invariant forall u :: u in flagged <==> u in byUser && u !in todo && Flagged(byUser[u])
      invariant forall u :: u in flagged ==> ShowsFlag(byUser[u], flagged[u])
      decreases todo
    {
      var user :| user in todo;
      todo := todo - {user};
      var hop := HopOfUser(fold, byUser[user]);
      if hop.Some? { hops := hops[user := hop.value]; }
      var event := FlaggedOfUser(byUser[user]);
      if event.Some? { flagged := flagged[user := event.value]; }
    }
    forall u ensures u in hops <==> UserHopped(fold, signIns, u) {
      HoppedInGroup(fold, signIns, u);
    }
    forall u ensures u in flagged <==> UserFlagged(fold, signIns, u) {
      FlaggedInGroup(fold, signIns, u);
    }
  }

  lemma FlaggedInGroup(fold: Folding, signIns: seq<SignIn>, u: string)
    ensures UserFlagged(fold, signIns, u) <==> Flagged(Filter(signIns, SuccessOf(fold, u)))
  {
    FilterMembers(signIns, SuccessOf(fold, u));
  }

  lemma HoppedInGroup(fold: Folding, signIns: seq<SignIn>, u: string)
    ensures UserHopped(fold, signIns, u) <==> Hopped(fold, Filter(signIns, SuccessOf(fold, u)))
  {
    FilterMembers(signIns, SuccessOf(fold, u));
  }

  // ----- the gap shown, over every order of ties -----

  /** `b` and `c` at one instant, abroad from each other, within an hour of an earlier compatriot of `b`,
      and no hop completes before them. */
  ghost predicate TiedAbroad(fold: Folding, group: seq<SignIn>, a: SignIn, b: SignIn, c: SignIn) {
    && a in group && BearsCountry(a) && !Differ(fold, a, b)
    && a.at < b.at == c.at < a.at + HOUR && Shows(fold, group, Hop(b, c))
  }

  /** Every order of ties shows the same gap. */
  ghost predicate GapDetermined(fold: Folding, group: seq<SignIn>) {
    forall g, h :: Shown(fold, group, g) && Shown(fold, group, h) ==> Gap(g) == Gap(h)
  }

  function Gap(hop: Hop): int { hop.second.at - hop.first.at }

  /** Two orders that show different gaps do so at one instant. */
  lemma WiderGapNeedsTie(fold: Folding, group: seq<SignIn>, e: seq<SignIn>, l: nat, n: nat,
                         f: seq<SignIn>, p: nat, q: nat)
    requires multiset(e) == multiset(group) == multiset(f)
    requires StopsAt(fold, e, l, n) && StopsAt(fold, f, p, q)
    requires Gap(Hop(e[l], e[n])) > Gap(Hop(f[p], f[q]))
    ensures TiedAbroad(fold, group, e[l], f[p], f[q])
  {
    FirstHopShows(fold, group, e, l, n);
    FirstHopShows(fold, group, f, p, q);
    BearingNotBetween(group, e, l, n, f[p]);
    NoHopBefore(fold, group, f, p, q, e[l]);
  }

  /** What bears a country and is later than the last such event before `n` is not earlier than `n`. */
  lemma BearingNotBetween(group: seq<SignIn>, e: seq<SignIn>, l: nat, n: nat, x: SignIn)
    requires multiset(e) == multiset(group) && Sorted(e) && l < n < |e| && LastBearing(e, n, Some(l))
    requires x in group && BearsCountry(x) && e[l].at < x.at
    ensures e[n].at <= x.at
  {
    SameMembers(e, group);
    var i :| 0 <= i < |e| && e[i] == x;
    assert n <= i;
  }

  lemma NoHopBefore(fold: Folding, group: seq<SignIn>, f: seq<SignIn>, p: nat, q: nat, x: SignIn)
    requires multiset(f) == multiset(group) && Sorted(f) && p < q < |f| && Quiet(fold, f, q)
    requires x in group && x.at < f[p].at
    ensures !Hops(fold, x, f[p])
  {
    SameMembers(f, group);
    var j :| 0 <= j < |f| && f[j] == x;
    assert j < p;
  }

  lemma SplitCounts(group: seq<SignIn>, b: SignIn, c: SignIn) returns (n: multiset<SignIn>, r: multiset<SignIn>)
    requires b in group && c in group && b != c && b.at == c.at
    ensures n + multiset{b, c} + r == multiset(group)
    ensures forall e :: e in n <==> e in group && e.at < b.at
    ensures forall e :: e in r ==> b.at <= e.at
  {
    var rest;
    n, rest := SplitAtCounts(group, b);
    assert c in multiset(group);
    r := rest - multiset{c};
  }

  /** The events before an instant, and the others without the two named, each in time order. */
  lemma SplitAround(group: seq<SignIn>, b: SignIn, c: SignIn) returns (early: seq<SignIn>, late: seq<SignIn>)
    requires b in group && c in group && b != c && b.at == c.at
    ensures Sorted(early) && Sorted(late)
    ensures forall e :: e in early <==> e in group && e.at < b.at
    ensures forall e :: e in late ==> b.at <= e.at
    ensures multiset(early) + multiset{b, c} + multiset(late) == multiset(group)
  {
    var n, r := SplitCounts(group, b, c);
    early := InTimeOrder(n);
    late := InTimeOrder(r);
    MembersInOrder(early, n);
    MembersInOrder(late, r);
  }

  lemma TieIsSorted(group: seq<SignIn>, early: seq<SignIn>, u: SignIn, v: SignIn, late: seq<SignIn>)
    requires Sorted(early) && Sorted(late) && u.at == v.at
    requires (forall e :: e in early ==> e.at < u.at) && (forall e :: e in late ==> u.at <= e.at)
    requires multiset(early) + multiset{u, v} + multiset(late) == multiset(group)
    ensures Sorted(early + [u, v] + late) && multiset(early + [u, v] + late) == multiset(group)
  {
    SortedJoin(early, [u, v], u.at);
    SortedJoin(early + [u, v], late, u.at);
  }

  /** Index of the last country-bearing event. */
  lemma {:induction false} LastIndex(events: seq<SignIn>, a: SignIn) returns (l: nat)
    requires a in events && BearsCountry(a)
    ensures LastBearing(events, |events|, Some(l))
  {
    l := |events| - 1;
    if BearsCountry(events[l]) {
    } else {
      assert events == events[..l] + [events[l]];
      l := LastIndex(events[..l], a);
    }
  }

  /** Before the tie nobody leaves the compatriots' country. */
  lemma QuietBeforeTie(fold: Folding, group: seq<SignIn>, a: SignIn, b: SignIn, c: SignIn, e: SignIn)
    requires TiedAbroad(fold, group, a, b, c) && e in group && e.at < b.at
    ensures !Hops(fold, e, b)
    ensures BearsCountry(e) && a.at <= e.at ==> Hops(fold, e, c)
    ensures forall f :: f in group && f.at < b.at ==> !Hops(fold, e, f)
  {
    assert !Hops(fold, a, e) && !Hops(fold, e, a);
    forall f | f in group && f.at < b.at ensures !Hops(fold, e, f) {
      assert Hops(fold, e, f) == Hops(fold, f, e);
    }
  }

  /** With the compatriot first the loop stops at the tie itself. */
  lemma TieShown(fold: Folding, group: seq<SignIn>, a: SignIn, b: SignIn, c: SignIn,
                 early: seq<SignIn>, late: seq<SignIn>)
    requires TiedAbroad(fold, group, a, b, c) && Sorted(early) && Sorted(late)
    requires (forall e :: e in early <==> e in group && e.at < b.at) && (forall e :: e in late ==> b.at <= e.at)
    requires multiset(early) + multiset{b, c} + multiset(late) == multiset(group)
    ensures Shown(fold, group, Hop(b, c))
  {
    var k, x := |early|, early + [b, c] + late;
    TieIsSorted(group, early, b, c, late);
    assert x[k] == b && x[k + 1] == c;
    forall p, q | 0 <= p < q < k + 1 ensures !Hops(fold, x[p], x[q]) {
      assert x[p] in early;
      assert q < k ==> x[q] in early;
      QuietBeforeTie(fold, group, a, b, c, x[p]);
    }
    assert StopsAt(fold, x, k, k + 1);
  }

  /** With the other first it stops before the compatriot. */
  lemma EarlierShown(fold: Folding, group: seq<SignIn>, a: SignIn, b: SignIn, c: SignIn,
                     early: seq<SignIn>, late: seq<SignIn>) returns (e: SignIn)
    requires TiedAbroad(fold, group, a, b, c) && Sorted(early) && Sorted(late)
    requires (forall e :: e in early <==> e in group && e.at < b.at) && (forall e :: e in late ==> b.at <= e.at)
    requires multiset(early) + multiset{c, b} + multiset(late) == multiset(group)
    ensures e.at < c.at && Shown(fold, group, Hop(e, c))
  {
    var k, x := |early|, early + [c, b] + late;
    TieIsSorted(group, early, c, b, late);
    var l := LastIndex(early, a);
    e := early[l];
    assert e in early && x[l] == e && x[k] == c;
    var i :| 0 <= i < k && early[i] == a;
    QuietBeforeTie(fold, group, a, b, c, e);
    forall p, q | 0 <= p < q < k ensures !Hops(fold, x[p], x[q]) {
      assert x[p] in early && x[q] in early;
      QuietBeforeTie(fold, group, a, b, c, x[p]);
    }
    assert StopsAt(fold, x, l, k);
  }

  lemma TieShowsTwoGaps(fold: Folding, group: seq<SignIn>, a: SignIn, b: SignIn, c: SignIn)
    requires TiedAbroad(fold, group, a, b, c)
    ensures !GapDetermined(fold, group)
  {
    var early, late := SplitAround(group, b, c);
    TieShown(fold, group, a, b, c, early, late);
    var e := EarlierShown(fold, group, a, b, c, early, late);
    assert Gap(Hop(b, c)) == 0 < Gap(Hop(e, c));
  }

  /** Whether a user is reported does not depend on the order of ties. The gap shown does exactly
      when, at the instant the first hop completes, two sign-ins from different countries tie and
      the hour before holds one from the country of either. */
  lemma GapDependsOnTies(fold: Folding, group: seq<SignIn>)
    ensures GapDetermined(fold, group) <==> !exists a, b, c :: TiedAbroad(fold, group, a, b, c)
  {
    if a, b, c :| TiedAbroad(fold, group, a, b, c) { TieShowsTwoGaps(fold, group, a, b, c); }
    if !GapDetermined(fold, group) {
      var g, h :| Shown(fold, group, g) && Shown(fold, group, h) && Gap(g) > Gap(h);
      var e, l: nat, n: nat :| multiset(e) == multiset(group) && StopsAt(fold, e, l, n) && g == Hop(e[l], e[n]);
      var f, p: nat, q: nat :| multiset(f) == multiset(group) && StopsAt(fold, f, p, q) && h == Hop(f[p], f[q]);
      WiderGapNeedsTie(fold, group, e, l, n, f, p, q);
    }
  }
}
