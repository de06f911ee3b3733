/** Monitored targets: the scheduler's map, the persisted list, and the handlers that change both
    (web/server.go, sched/scheduler.go, store/memory.go, tenant/collector.go, tenant/checks.go). */
module Registry {
  import opened Core
  import opened Seqs
  import opened Fingerprints

  datatype Result<T> = Ok(value: T) | Err(error: IngestError)

  /** Unicode tables: which characters are white space, and the per-character lower-case mapping. */
  datatype Text = Text(isSpace: char -> bool, lowerChar: char -> char)

  function Lower(x: Text, s: string): (r: string)
    ensures |r| == |s| && forall i :: 0 <= i < |s| ==> r[i] == x.lowerChar(s[i])
  {
    seq(|s|, i requires 0 <= i < |s| => x.lowerChar(s[i]))
  }

  function TrimLeft(x: Text, s: string): string {
    if s != [] && x.isSpace(s[0]) then TrimLeft(x, s[1..]) else s
  }

  function TrimRight(x: Text, s: string): string {
    if s != [] && x.isSpace(s[|s| - 1]) then TrimRight(x, s[..|s| - 1]) else s
  }

  function Trim(x: Text, s: string): string { TrimRight(x, TrimLeft(x, s)) }

  /** The position of the first colon, or the length. */
  function ColonAt(s: string): (i: nat)
    ensures i <= |s| && (forall j :: 0 <= j < i ==> s[j] != ':') && (i < |s| ==> s[i] == ':')
  {
    if s == [] || s[0] == ':' then 0 else 1 + ColonAt(s[1..])
  }

  function SplitCanonical(s: string): Option<(string, string)> {
    var i := ColonAt(s);
    if i == |s| || i == 0 || i + 1 == |s| then None else Some((s[..i], s[i + 1..]))
  }

  function Canonical(x: Text, provider: string, domain: string): string {
    Lower(x, provider) + ":" + Lower(x, domain)
  }

  datatype Target = Target(raw: string, canonical: string)

  function ValidateTarget(x: Text, raw: string): Result<Target> {
    var trimmed := Trim(x, raw);
    match SplitCanonical(Lower(x, trimmed))
    case None => Err(IngestError("target", "expected \"provider:domain\""))
    case Some((provider, domain)) =>
      if provider != "m365" && provider != "gws" then
        Err(IngestError("target", "provider must be m365 or gws, got " + provider))
      else if '.' !in domain then
        Err(IngestError("target", "domain looks invalid: " + domain))
      else
        Ok(Target(trimmed, Canonical(x, provider, domain)))
  }

  // ----- validation facts -----

  lemma {:induction false} TrimRightPrefix(x: Text, s: string)
    ensures TrimRight(x, s) <= s
    ensures var r := TrimRight(x, s); r != [] ==> !x.isSpace(r[|r| - 1])
  {
    if s == [] || !x.isSpace(s[|s| - 1]) {
    } else {
      TrimRightPrefix(x, s[..|s| - 1]);
    }
  }

  lemma {:induction false} TrimLeftFirst(x: Text, s: string)
    ensures var r := TrimLeft(x, s); r != [] ==> !x.isSpace(r[0])
  {
    if s == [] || !x.isSpace(s[0]) {
    } else {
      TrimLeftFirst(x, s[1..]);
    }
  }

  lemma TrimTwice(x: Text, s: string)
    ensures Trim(x, Trim(x, s)) == Trim(x, s)
  {
    TrimLeftFirst(x, s);
    TrimRightPrefix(x, TrimLeft(x, s));
  }

  /** What is persisted validates to the very target it was saved for. */
  lemma SavedRawReplays(x: Text, raw: string)
    requires ValidateTarget(x, raw).Ok?
    ensures ValidateTarget(x, ValidateTarget(x, raw).value.raw) == ValidateTarget(x, raw)
  {
    TrimTwice(x, raw);
  }

  lemma {:induction false} ColonUnique(s: string, i: nat)
    requires i < |s| && s[i] == ':' && forall j :: 0 <= j < i ==> s[j] != ':'
    ensures ColonAt(s) == i
  {
    if i == 0 {
    } else {
      ColonUnique(s[1..], i - 1);
    }
  }

  lemma LowerTwice(x: Text, s: string, i: nat, j: nat)
    requires forall c :: x.lowerChar(x.lowerChar(c)) == x.lowerChar(c)
    requires i <= j <= |s|
    ensures Lower(x, Lower(x, s)[i..j]) == Lower(x, s)[i..j]
  {
  }

  lemma CanonicalOfLower(x: Text, s: string)
    requires forall c :: x.lowerChar(x.lowerChar(c)) == x.lowerChar(c)
    requires SplitCanonical(Lower(x, s)).Some?
    ensures var parts := SplitCanonical(Lower(x, s)).value; Canonical(x, parts.0, parts.1) == Lower(x, s)
  {
    var low := Lower(x, s);
    var i := ColonAt(low);
    LowerTwice(x, s, 0, i);
    LowerTwice(x, s, i + 1, |low|);
    assert low == low[..i] + ":" + low[i + 1..];
  }

  /** Lower-casing twice is once, so a canonical name is the trimmed input in lower case, and the
      collector can always split it back. */
  lemma CanonicalRoundTrip(x: Text, raw: string)
    requires forall c :: x.lowerChar(x.lowerChar(c)) == x.lowerChar(c)
    requires ValidateTarget(x, raw).Ok?
    ensures var c := ValidateTarget(x, raw).value.canonical;
            && c == Lower(x, Trim(x, raw))
            && SplitCanonical(c).Some?
            && Canonical(x, SplitCanonical(c).value.0, SplitCanonical(c).value.1) == c
  {
    CanonicalOfLower(x, Trim(x, raw));
  }

  lemma ValidatedAs(x: Text, raw: string)
    requires forall c :: x.lowerChar(x.lowerChar(c)) == x.lowerChar(c)
    requires ValidateTarget(x, raw).Ok?
    ensures ValidateTarget(x, raw) == Ok(Target(Trim(x, raw), Lower(x, Trim(x, raw))))
  {
    CanonicalRoundTrip(x, raw);
  }

  lemma LowerConcat(x: Text, s: string, t: string)
    ensures Lower(x, s + t) == Lower(x, s) + Lower(x, t)
  {
  }

  lemma TrimKeeps(x: Text, s: string)
    requires s != "" && !x.isSpace(s[0]) && !x.isSpace(s[|s| - 1])
    ensures Trim(x, s) == s
  {
  }

  lemma TrimEnds(x: Text, raw: string)
    requires Trim(x, raw) != ""
    ensures !x.isSpace(Trim(x, raw)[0])
  {
    TrimLeftFirst(x, raw);
    TrimRightPrefix(x, TrimLeft(x, raw));
  }

  lemma TrimExtended(x: Text, raw: string, tail: string)
    requires Trim(x, raw) != "" && tail != "" && !x.isSpace(tail[|tail| - 1])
    ensures Trim(x, Trim(x, raw) + tail) == Trim(x, raw) + tail
  {
    TrimEnds(x, raw);
    TrimKeeps(x, Trim(x, raw) + tail);
  }

  /** Text behind a domain belongs to the domain. */
  lemma SplitLonger(s: string, more: string)
    requires SplitCanonical(s).Some?
    ensures SplitCanonical(s + more) == Some((SplitCanonical(s).value.0, SplitCanonical(s).value.1 + more))
  {
    var i := ColonAt(s);
    ColonUnique(s + more, i);
    assert (s + more)[..i] == s[..i] && (s + more)[i + 1..] == s[i + 1..] + more;
  }

  lemma LongerDomainIsAccepted(x: Text, raw: string, tail: string)
    requires ValidateTarget(x, raw).Ok? && Trim(x, Trim(x, raw) + tail) == Trim(x, raw) + tail
    ensures ValidateTarget(x, Trim(x, raw) + tail).Ok?
  {
    var low := Lower(x, Trim(x, raw));
    LowerConcat(x, Trim(x, raw), tail);
    SplitLonger(low, Lower(x, tail));
    var domain := SplitCanonical(low).value.1;
    assert '.' in domain ==> '.' in domain + Lower(x, tail);
  }

  lemma LowerBar(x: Text, s: string, more: string)
    requires x.lowerChar('|') == '|'
    ensures Lower(x, s + ("|" + more)) == Lower(x, s) + "|" + Lower(x, more)
  {
  }

  /** A domain may hold a bar: behind any accepted input, a bar and anything that does not end in
      white space is accepted too, and names the same target with that text behind it, in lower case. */
  lemma BarIsAccepted(x: Text, raw: string, more: string)
    requires forall c :: x.lowerChar(x.lowerChar(c)) == x.lowerChar(c)
    requires ValidateTarget(x, raw).Ok?
    requires x.lowerChar('|') == '|' && !x.isSpace('|') && (more != "" ==> !x.isSpace(more[|more| - 1]))
    ensures var longer := ValidateTarget(x, Trim(x, raw) + ("|" + more));
            longer.Ok? && longer.value.canonical == ValidateTarget(x, raw).value.canonical + "|" + Lower(x, more)
  {
    var trimmed, tail := Trim(x, raw), "|" + more;
    TrimExtended(x, raw, tail);
    LongerDomainIsAccepted(x, raw, tail);
    ValidatedAs(x, raw);
    ValidatedAs(x, trimmed + tail);
    LowerBar(x, trimmed, more);
  }

  /** So every target has others it shares fingerprints with: itself, a bar, and the name of a check
      that takes any discriminator, if that is written in small letters. */
  lemma EveryTargetCanCollide(x: Text, raw: string, moduleId: string, checks: Checks, check: string)
    requires forall c :: x.lowerChar(x.lowerChar(c)) == x.lowerChar(c)
    requires ValidateTarget(x, raw).Ok? && x.lowerChar('|') == '|' && !x.isSpace('|')
    requires BarFree(checks) && check in checks.free && check != "" && !x.isSpace(check[|check| - 1])
    requires Lower(x, check) == check
    ensures var other := ValidateTarget(x, Trim(x, raw) + ("|" + check));
            && other.Ok? && other.value.canonical != ValidateTarget(x, raw).value.canonical
            && ShareText(checks, moduleId, ValidateTarget(x, raw).value.canonical, moduleId, other.value.canonical)
  {
    BarIsAccepted(x, raw, check);
    var t := ValidateTarget(x, raw).value.canonical;
    var t' := ValidateTarget(x, Trim(x, raw) + ("|" + check)).value.canonical;
    assert t' == t + "|" + check && t'[|t| + 1..] == check;
    BarFreeSegment(check);
    CheckShares(checks, moduleId, t, t');
  }

  // ----- the registry as a state machine, over any collector -----

  /** What the validator accepts: after trimming and in lower case, one of the two providers, a colon,
      and a domain with a dot in it. */
  lemma AcceptedInputs(x: Text, raw: string)
    ensures ValidateTarget(x, raw).Ok? <==>
            exists p, d :: p in {"m365", "gws"} && '.' in d && Lower(x, Trim(x, raw)) == p + ":" + d
  {
    var low := Lower(x, Trim(x, raw));
    if ValidateTarget(x, raw).Ok? {
      var i := ColonAt(low);
      assert low == low[..i] + ":" + low[i + 1..];
    }
    if p, d :| p in {"m365", "gws"} && '.' in d && low == p + ":" + d {
      SplitAtColon(p, d);
    }
  }

  lemma SplitAtColon(p: string, d: string)
    requires ':' !in p && p != "" && d != ""
    ensures SplitCanonical(p + ":" + d) == Some((p, d))
  {
    var s := p + ":" + d;
    ColonUnique(s, |p|);
    assert s[..|p|] == p && s[|p| + 1..] == d;
  }

  /** Trimming takes white space off both ends, all of it, and nothing else. */
  lemma TrimMeaning(x: Text, s: string) returns (a: string, b: string)
    ensures s == a + Trim(x, s) + b
    ensures (forall c :: c in a ==> x.isSpace(c)) && (forall c :: c in b ==> x.isSpace(c))
    ensures Trim(x, s) != "" ==> !x.isSpace(Trim(x, s)[0]) && !x.isSpace(Trim(x, s)[|Trim(x, s)| - 1])
  {
    a := LeftSpace(x, s);
    b := RightSpace(x, TrimLeft(x, s));
    TrimRightPrefix(x, TrimLeft(x, s));
    TrimLeftFirst(x, s);
  }

  lemma {:induction false} LeftSpace(x: Text, s: string) returns (a: string)
    ensures s == a + TrimLeft(x, s) && forall c :: c in a ==> x.isSpace(c)
  {
    if s == "" || !x.isSpace(s[0]) {
      a := "";
    } else {
      a := LeftSpace(x, s[1..]);
      a := [s[0]] + a;
    }
  }

  lemma {:induction false} RightSpace(x: Text, s: string) returns (b: string)
    ensures s == TrimRight(x, s) + b && forall c :: c in b ==> x.isSpace(c)
  {
    if s == "" || !x.isSpace(s[|s| - 1]) {
      b := "";
    } else {
      b := RightSpace(x, s[..|s| - 1]);
      b := b + [s[|s| - 1]];
    }
  }

  type Validator = string -> Result<Target>

  /** Validating the raw input a target was saved with gives that target again. */
  ghost predicate Replays(validate: Validator) {
    forall raw :: validate(raw).Ok? ==> validate(validate(raw).value.raw) == validate(raw)
  }

  function TenantValidator(x: Text): Validator { (raw: string) => ValidateTarget(x, raw) }

  lemma TenantTargetsReplay(x: Text)
    ensures Replays(TenantValidator(x))
  {
    forall raw: string | ValidateTarget(x, raw).Ok? {
      SavedRawReplays(x, raw);
    }
  }

  datatype Saved = Saved(raw: string, canonical: string)

  /** The scheduler's map by canonical name, and the persisted rows in insertion order. */
  datatype Reg = Reg(targets: map<string, Target>, saved: seq<Saved>)

  predicate IsSaved(saved: seq<Saved>, canonical: string) {
    exists i :: 0 <= i < |saved| && saved[i].canonical == canonical
  }

  /** SaveTarget: idempotent on the canonical name, so the first raw input stays. */
  function WithSaved(saved: seq<Saved>, t: Target): seq<Saved> {
    if IsSaved(saved, t.canonical) then saved else saved + [Saved(t.raw, t.canonical)]
  }

  function Other(canonical: string): Saved -> bool { (s: Saved) => s.canonical != canonical }

  predicate CanAdd(maxTargets: nat, current: nat) { maxTargets == 0 || current < maxTargets }

  function Replayed(validate: Validator, saved: seq<Saved>): map<string, Target> {
    if saved == [] then map[]
    else
      var before := Replayed(validate, saved[..|saved| - 1]);
      match validate(saved[|saved| - 1].raw)
      case Err(_) => before
      case Ok(t) => before[t.canonical := t]
  }

  datatype Op = Add(raw: string) | Remove(canonical: string) | Restart

  function Step(validate: Validator, maxTargets: nat, r: Reg, op: Op): Reg {
    match op
    case Add(raw) =>
      (match validate(raw)
       case Err(_) => r
       case Ok(t) =>
         if CanAdd(maxTargets, |r.targets|)
         then Reg(r.targets[t.canonical := t], WithSaved(r.saved, t)) else r)
    case Remove(c) =>
      if c == "" then r else Reg(r.targets - {c}, Filter(r.saved, Other(c)))
    case Restart => r.(targets := Replayed(validate, r.saved))
  }

  function Steps(validate: Validator, maxTargets: nat, ops: seq<Op>): Reg {
    if ops == [] then Reg(map[], [])
    else Step(validate, maxTargets, Steps(validate, maxTargets, ops[..|ops| - 1]), ops[|ops| - 1])
  }

  ghost predicate DistinctNames(saved: seq<Saved>) {
    forall i, j :: 0 <= i < j < |saved| ==> saved[i].canonical != saved[j].canonical
  }

  /** Both views hold the same targets, each once, and each row replays to its own name. */
  ghost predicate Agree(validate: Validator, r: Reg) {
    && DistinctNames(r.saved)
    && (forall c :: c in r.targets <==> IsSaved(r.saved, c))
    && (forall c :: c in r.targets ==> r.targets[c].canonical == c)
    && (forall i :: 0 <= i < |r.saved| ==>
          validate(r.saved[i].raw) == Ok(Target(r.saved[i].raw, r.saved[i].canonical)))
  }

  lemma {:induction false} FilterNames(saved: seq<Saved>, c: string)
    requires DistinctNames(saved)
    ensures DistinctNames(Filter(saved, Other(c)))
    ensures forall s :: s in Filter(saved, Other(c)) <==> s in saved && s.canonical != c
  {
    if saved == [] {
    } else {
      var init, last := saved[..|saved| - 1], saved[|saved| - 1];
      FilterNames(init, c);
      assert saved == init + [last];
      var f := Filter(init, Other(c));
      forall i | 0 <= i < |f| ensures f[i].canonical != last.canonical {
        assert f[i] in f;
        var j :| 0 <= j < |init| && init[j] == f[i];
        assert saved[j] == f[i];
      }
    }
  }

  lemma SavedMember(saved: seq<Saved>, c: string)
    ensures IsSaved(saved, c) <==> exists s :: s in saved && s.canonical == c
  {
    if s :| s in saved && s.canonical == c {
      var i :| 0 <= i < |saved| && saved[i] == s;
      assert saved[i].canonical == c;
    }
    if IsSaved(saved, c) {
      var i :| 0 <= i < |saved| && saved[i].canonical == c;
      assert saved[i] in saved;
    }
  }

  lemma OneMoreSaved(saved: seq<Saved>, s: Saved)
    ensures forall c :: IsSaved(saved + [s], c) <==> IsSaved(saved, c) || c == s.canonical
  {
    forall c ensures IsSaved(saved + [s], c) <==> IsSaved(saved, c) || c == s.canonical {
      SavedMember(saved, c);
      SavedMember(saved + [s], c);
      assert forall x :: x in saved + [s] <==> x in saved || x == s;
    }
  }

  lemma AddKeepsAgreement(validate: Validator, r: Reg, t: Target)
    requires Agree(validate, r) && validate(t.raw) == Ok(t)
    ensures Agree(validate, Reg(r.targets[t.canonical := t], WithSaved(r.saved, t)))
  {
    var saved := WithSaved(r.saved, t);
    if !IsSaved(r.saved, t.canonical) { OneMoreSaved(r.saved, Saved(t.raw, t.canonical)); }
  }

  lemma RemoveKeepsAgreement(validate: Validator, r: Reg, c: string)
    requires Agree(validate, r)
    ensures Agree(validate, Reg(r.targets - {c}, Filter(r.saved, Other(c))))
  {
    var saved := Filter(r.saved, Other(c));
    FilterNames(r.saved, c);
    forall d ensures IsSaved(saved, d) <==> IsSaved(r.saved, d) && d != c {
      SavedMember(saved, d);
      SavedMember(r.saved, d);
    }
    forall i | 0 <= i < |saved|
      ensures validate(saved[i].raw) == Ok(Target(saved[i].raw, saved[i].canonical))
    {
      assert saved[i] in saved;
      var j :| 0 <= j < |r.saved| && r.saved[j] == saved[i];
    }
  }

  /** Replaying the saved rows yields exactly one target per row, under its saved raw input. */
  lemma {:induction false} ReplayRestores(validate: Validator, saved: seq<Saved>)
    requires DistinctNames(saved)
    requires forall i :: 0 <= i < |saved| ==>
               validate(saved[i].raw) == Ok(Target(saved[i].raw, saved[i].canonical))
    ensures forall c :: c in Replayed(validate, saved) <==> IsSaved(saved, c)
    ensures forall i :: 0 <= i < |saved| ==>
              && saved[i].canonical in Replayed(validate, saved)
              && Replayed(validate, saved)[saved[i].canonical] == Target(saved[i].raw, saved[i].canonical)
    ensures forall c :: c in Replayed(validate, saved) ==> Replayed(validate, saved)[c].canonical == c
  {
    if saved == [] {
    } else {
      var n := |saved| - 1;
      var init := saved[..n];
      ReplayRestores(validate, init);
      OneMoreSaved(init, saved[n]);
      assert saved == init + [saved[n]];
      forall i | 0 <= i < n
        ensures saved[i].canonical in Replayed(validate, saved)
             && Replayed(validate, saved)[saved[i].canonical] == Target(saved[i].raw, saved[i].canonical)
      {
        assert init[i] == saved[i];
      }
    }
  }

  lemma StepKeepsAgreement(validate: Validator, maxTargets: nat, r: Reg, op: Op)
    requires Agree(validate, r) && Replays(validate)
    ensures Agree(validate, Step(validate, maxTargets, r, op))
  {
    match op
    case Add(raw) =>
      if validate(raw).Ok? {
        AddKeepsAgreement(validate, r, validate(raw).value);
      }
    case Remove(c) => RemoveKeepsAgreement(validate, r, c);
    case Restart => ReplayRestores(validate, r.saved);
  }

  /** After any sequence of adds, removals and restarts the scheduler's targets are the persisted
      ones, without duplicates, and a non-zero limit is never exceeded. */
  lemma {:induction false} RegistryAgrees(validate: Validator, maxTargets: nat, ops: seq<Op>)
    requires Replays(validate)
    ensures Agree(validate, Steps(validate, maxTargets, ops))
    ensures maxTargets != 0 ==> |Steps(validate, maxTargets, ops).targets| <= maxTargets
  {
    if ops == [] {
    } else {
      var r := Steps(validate, maxTargets, ops[..|ops| - 1]);
      RegistryAgrees(validate, maxTargets, ops[..|ops| - 1]);
      StepKeepsAgreement(validate, maxTargets, r, ops[|ops| - 1]);
      if maxTargets != 0 { StepKeepsLimit(validate, maxTargets, r, ops[|ops| - 1]); }
    }
  }

  lemma SizeAfterUpdate<K, V>(m: map<K, V>, k: K, v: V)
    ensures |m[k := v]| <= |m| + 1
  {
    assert m[k := v].Keys == m.Keys + {k};
    assert |m[k := v]| == |m[k := v].Keys| && |m| == |m.Keys|;
  }

  lemma SizeAfterRemoval<K, V>(m: map<K, V>, k: K)
    ensures |m - {k}| <= |m|
  {
    assert (m - {k}).Keys == m.Keys - {k};
    assert |m - {k}| == |(m - {k}).Keys| && |m| == |m.Keys|;
  }

  lemma SameKeysSameSize<K, V>(m: map<K, V>, n: map<K, V>)
    requires forall k :: k in m <==> k in n
    ensures |m| == |n| && m.Keys == n.Keys
  {
    assert m.Keys == n.Keys;
    assert |m| == |m.Keys| && |n| == |n.Keys|;
  }

  lemma AddKeepsLimit(validate: Validator, maxTargets: nat, r: Reg, raw: string)
    requires maxTargets != 0 && |r.targets| <= maxTargets
    ensures |Step(validate, maxTargets, r, Add(raw)).targets| <= maxTargets
  {
    if validate(raw).Ok? { SizeAfterUpdate(r.targets, validate(raw).value.canonical, validate(raw).value); }
  }

  lemma RestartKeepsLimit(validate: Validator, maxTargets: nat, r: Reg)
    requires Agree(validate, r)
    ensures |Step(validate, maxTargets, r, Restart).targets| == |r.targets|
  {
    ReplayRestores(validate, r.saved);
    SameKeysSameSize(Replayed(validate, r.saved), r.targets);
  }

  lemma StepKeepsLimit(validate: Validator, maxTargets: nat, r: Reg, op: Op)
    requires Agree(validate, r) && maxTargets != 0 && |r.targets| <= maxTargets
    ensures |Step(validate, maxTargets, r, op).targets| <= maxTargets
  {
    match op
    case Add(raw) => AddKeepsLimit(validate, maxTargets, r, raw);
    case Remove(c) => SizeAfterRemoval(r.targets, c);
    case Restart => RestartKeepsLimit(validate, maxTargets, r);
  }

  // ----- what the operations do, by history -----

  /** An add of `c` that goes through: the input validates to it and the limit, if any, is not reached. */
  predicate Adds(validate: Validator, maxTargets: nat, current: nat, op: Op, c: string) {
    && op.Add? && validate(op.raw).Ok? && validate(op.raw).value.canonical == c
    && (maxTargets == 0 || current < maxTargets)
  }

  /** A removal of `c` that is not refused. */
  predicate Removes(op: Op, c: string) { op.Remove? && op.canonical == c && c != "" }

  /** The last accepted operation that names `c` is the add at `i`. */
  ghost predicate LastNamedAt(validate: Validator, maxTargets: nat, ops: seq<Op>, c: string, i: nat) {
    && i < |ops| && Adds(validate, maxTargets, |Steps(validate, maxTargets, ops[..i]).targets|, ops[i], c)
    && forall j :: i < j < |ops| ==> !Removes(ops[j], c)
  }

  ghost predicate LastNamedByAdd(validate: Validator, maxTargets: nat, ops: seq<Op>, c: string) {
    exists i: nat :: LastNamedAt(validate, maxTargets, ops, c, i)
  }

  lemma LastNamedNext(validate: Validator, maxTargets: nat, ops: seq<Op>, op: Op, c: string)
    ensures LastNamedByAdd(validate, maxTargets, ops + [op], c) <==>
            || Adds(validate, maxTargets, |Steps(validate, maxTargets, ops).targets|, op, c)
            || (LastNamedByAdd(validate, maxTargets, ops, c) && !Removes(op, c))
  {
    var all, n := ops + [op], |ops|;
    assert all[..n] == ops && all[n] == op;
    if Adds(validate, maxTargets, |Steps(validate, maxTargets, ops).targets|, op, c) {
      assert LastNamedAt(validate, maxTargets, all, c, n);
    }
    if LastNamedByAdd(validate, maxTargets, ops, c) && !Removes(op, c) {
      var i: nat :| LastNamedAt(validate, maxTargets, ops, c, i);
      assert all[..i] == ops[..i];
      assert LastNamedAt(validate, maxTargets, all, c, i);
    }
    if LastNamedByAdd(validate, maxTargets, all, c) {
      var i: nat :| LastNamedAt(validate, maxTargets, all, c, i);
      if i < n {
        assert all[..i] == ops[..i] && forall j :: i < j < n ==> ops[j] == all[j];
        assert LastNamedAt(validate, maxTargets, ops, c, i);
      }
    }
  }

  /** A step's effect on who is present. */
  lemma StepPresence(validate: Validator, maxTargets: nat, r: Reg, op: Op, c: string)
    requires Agree(validate, r) && Replays(validate)
    ensures c in Step(validate, maxTargets, r, op).targets <==>
            Adds(validate, maxTargets, |r.targets|, op, c) || (c in r.targets && !Removes(op, c))
  {
    if op == Restart { ReplayRestores(validate, r.saved); }
  }

  /** A target is monitored, and is saved, exactly when the last accepted operation that names it was
      an add. */
  lemma {:induction false} PresentIffAddedLast(validate: Validator, maxTargets: nat, ops: seq<Op>, c: string)
    requires Replays(validate)
    ensures c in Steps(validate, maxTargets, ops).targets <==> LastNamedByAdd(validate, maxTargets, ops, c)
    ensures IsSaved(Steps(validate, maxTargets, ops).saved, c) <==> LastNamedByAdd(validate, maxTargets, ops, c)
  {
    RegistryAgrees(validate, maxTargets, ops);
    if ops == [] {
    } else {
      var init, op := ops[..|ops| - 1], ops[|ops| - 1];
      assert ops == init + [op];
      PresentIffAddedLast(validate, maxTargets, init, c);
      RegistryAgrees(validate, maxTargets, init);
      LastNamedNext(validate, maxTargets, init, op, c);
      StepPresence(validate, maxTargets, Steps(validate, maxTargets, init), op, c);
    }
  }

  /** An accepted add schedules the validated target and saves it behind the others unless it is saved;
      any other add changes nothing. */
  lemma AddMeaning(validate: Validator, maxTargets: nat, ops: seq<Op>, raw: string)
    requires Replays(validate)
    ensures var r, r' := Steps(validate, maxTargets, ops), Steps(validate, maxTargets, ops + [Add(raw)]);
      if validate(raw).Ok? && (maxTargets == 0 || |r.targets| < maxTargets) then
        var t := validate(raw).value;
        && t.canonical in r'.targets && r'.targets[t.canonical] == t
        && (forall c :: c != t.canonical ==> (c in r'.targets <==> c in r.targets))
        && (forall c :: c in r.targets && c != t.canonical ==> r'.targets[c] == r.targets[c])
        && r'.saved == r.saved + if t.canonical in r.targets then [] else [Saved(t.raw, t.canonical)]
      else r' == r
  {
    RegistryAgrees(validate, maxTargets, ops);
    assert (ops + [Add(raw)])[..|ops|] == ops;
  }

  lemma {:induction false} FilterOne(saved: seq<Saved>, c: string) returns (a: seq<Saved>, s: Saved, b: seq<Saved>)
    requires DistinctNames(saved) && IsSaved(saved, c)
    ensures saved == a + [s] + b && s.canonical == c && Filter(saved, Other(c)) == a + b
  {
    var init, last := saved[..|saved| - 1], saved[|saved| - 1];
    if last.canonical == c {
      a, s, b := init, last, [];
      assert forall x :: x in init ==> x.canonical != c;
      FilterAll(init, c);
    } else {
      var i :| 0 <= i < |saved| && saved[i].canonical == c;
      assert init[i].canonical == c;
      a, s, b := FilterOne(init, c);
      assert saved == a + [s] + (b + [last]);
      assert a + b + [last] == a + (b + [last]);
      b := b + [last];
    }
  }

  lemma {:induction false} FilterAll(saved: seq<Saved>, c: string)
    requires forall s :: s in saved ==> s.canonical != c
    ensures Filter(saved, Other(c)) == saved
  {
    if saved == [] {
    } else {
      assert saved[|saved| - 1] in saved;
      FilterAll(saved[..|saved| - 1], c);
    }
  }

  /** `r'` is `r` without `c`: gone from both views, every other entry as it was, and every other row in
      its place. */
  ghost predicate Without(r: Reg, c: string, r': Reg) {
    && c !in r'.targets && !IsSaved(r'.saved, c)
    && (forall d :: d != c ==> (d in r'.targets <==> d in r.targets))
    && (forall d :: d in r'.targets ==> r'.targets[d] == r.targets[d])
    && exists a, s, b :: CutOut(r.saved, a, s, b, c, r'.saved)
  }

  ghost predicate CutOut(saved: seq<Saved>, a: seq<Saved>, s: Saved, b: seq<Saved>, c: string, rest: seq<Saved>) {
    saved == a + [s] + b && s.canonical == c && rest == a + b
  }

  lemma RemovedFromBoth(validate: Validator, r: Reg, c: string)
    requires Agree(validate, r) && c in r.targets
    ensures Without(r, c, Reg(r.targets - {c}, Filter(r.saved, Other(c))))
  {
    var rest := Filter(r.saved, Other(c));
    var a, s, b := FilterOne(r.saved, c);
    assert CutOut(r.saved, a, s, b, c, rest);
    FilterNames(r.saved, c);
    SavedMember(rest, c);
  }

  lemma RemovedAbsent(validate: Validator, r: Reg, c: string)
    requires Agree(validate, r) && c !in r.targets
    ensures Reg(r.targets - {c}, Filter(r.saved, Other(c))) == r
  {
    forall s | s in r.saved ensures s.canonical != c { SavedMember(r.saved, s.canonical); }
    FilterAll(r.saved, c);
    assert r.targets - {c} == r.targets;
  }

  /** An accepted removal of a present target takes it out of both views and leaves the rest alone;
      any other removal changes nothing. */
  lemma RemoveMeaning(validate: Validator, maxTargets: nat, ops: seq<Op>, c: string)
    requires Replays(validate)
    ensures var r, r' := Steps(validate, maxTargets, ops), Steps(validate, maxTargets, ops + [Remove(c)]);
      if c != "" && c in r.targets then Without(r, c, r') else r' == r
  {
    var r := Steps(validate, maxTargets, ops);
    RegistryAgrees(validate, maxTargets, ops);
    assert (ops + [Remove(c)])[..|ops|] == ops;
    if c in r.targets { RemovedFromBoth(validate, r, c); } else { RemovedAbsent(validate, r, c); }
  }

  // ----- what a restart restores -----

  /** Every entry carries the raw input its saved row does. */
  ghost predicate SpelledAsSaved(r: Reg) {
    forall s :: s in r.saved ==> s.canonical in r.targets && r.targets[s.canonical].raw == s.raw
  }

  /** An add that goes through, of a target that is there under another raw input. */
  predicate Respells(validate: Validator, maxTargets: nat, r: Reg, op: Op) {
    && op.Add? && validate(op.raw).Ok? && CanAdd(maxTargets, |r.targets|)
    && var t := validate(op.raw).value;
       t.canonical in r.targets && r.targets[t.canonical].raw != t.raw
  }

  /** Exactly then a restart gives the registry back unchanged. */
  lemma RestartKeepsIff(validate: Validator, maxTargets: nat, r: Reg)
    requires Agree(validate, r)
    ensures Step(validate, maxTargets, r, Restart) == r <==> SpelledAsSaved(r)
  {
    ReplayRestores(validate, r.saved);
    var again := Replayed(validate, r.saved);
    forall s | s in r.saved ensures s.canonical in again && again[s.canonical] == Target(s.raw, s.canonical) {
      var i :| 0 <= i < |r.saved| && r.saved[i] == s;
    }
    forall c ensures c in again <==> exists s :: s in r.saved && s.canonical == c { SavedMember(r.saved, c); }
    if SpelledAsSaved(r) {
      forall c | c in again ensures c in r.targets && again[c] == r.targets[c] {
        var s :| s in r.saved && s.canonical == c;
      }
      forall c | c in r.targets ensures c in again { SavedMember(r.saved, c); }
      assert again == r.targets;
    }
  }

  /** After any operations a restart restores the same names, and the very same entries exactly when
      every target still carries the raw input it was first saved with. */
  lemma RestartRestores(validate: Validator, maxTargets: nat, ops: seq<Op>)
    requires Replays(validate)
    ensures var r := Steps(validate, maxTargets, ops);
            var r' := Step(validate, maxTargets, r, Restart);
            && r'.targets.Keys == r.targets.Keys && r'.saved == r.saved
            && (r' == r <==> SpelledAsSaved(r))
  {
    var r := Steps(validate, maxTargets, ops);
    RegistryAgrees(validate, maxTargets, ops);
    ReplayRestores(validate, r.saved);
    SameKeysSameSize(Replayed(validate, r.saved), r.targets);
    RestartKeepsIff(validate, maxTargets, r);
  }

  lemma AddSpells(validate: Validator, maxTargets: nat, r: Reg, raw: string)
    requires Agree(validate, r) && SpelledAsSaved(r)
    ensures SpelledAsSaved(Step(validate, maxTargets, r, Add(raw))) <==> !Respells(validate, maxTargets, r, Add(raw))
  {
    if validate(raw).Ok? && CanAdd(maxTargets, |r.targets|) {
      var t := validate(raw).value;
      SavedMember(r.saved, t.canonical);
      if t.canonical in r.targets {
        var s :| s in r.saved && s.canonical == t.canonical;
        assert r.targets[t.canonical].raw == s.raw;
      }
    }
  }

  /** From a registry a restart would keep, a step leads to another such one exactly when it is not
      an accepted add that respells a present target. */
  lemma StepSpells(validate: Validator, maxTargets: nat, r: Reg, op: Op)
    requires Agree(validate, r) && SpelledAsSaved(r)
    ensures SpelledAsSaved(Step(validate, maxTargets, r, op)) <==> !Respells(validate, maxTargets, r, op)
  {
    match op
    case Add(raw) => AddSpells(validate, maxTargets, r, raw);
    case Remove(c) => FilterNames(r.saved, c);
    case Restart => RestartKeepsIff(validate, maxTargets, r);
  }

  ghost predicate NeverRespelled(validate: Validator, maxTargets: nat, ops: seq<Op>) {
    forall i :: 0 <= i < |ops| ==> !Respells(validate, maxTargets, Steps(validate, maxTargets, ops[..i]), ops[i])
  }

  /** A restart after any prefix of the operations would change nothing. */
  ghost predicate AlwaysRestored(validate: Validator, maxTargets: nat, ops: seq<Op>) {
    forall i :: 0 <= i <= |ops| ==>
      var r := Steps(validate, maxTargets, ops[..i]);
      Step(validate, maxTargets, r, Restart) == r
  }

  lemma StepsNext(validate: Validator, maxTargets: nat, ops: seq<Op>, i: nat)
    requires i < |ops|
    ensures Steps(validate, maxTargets, ops[..i + 1])
         == Step(validate, maxTargets, Steps(validate, maxTargets, ops[..i]), ops[i])
  {
    assert ops[..i + 1][..i] == ops[..i];
  }

  lemma {:induction false} UnrespelledIsSpelled(validate: Validator, maxTargets: nat, ops: seq<Op>, i: nat)
    requires Replays(validate) && NeverRespelled(validate, maxTargets, ops) && i <= |ops|
    ensures SpelledAsSaved(Steps(validate, maxTargets, ops[..i]))
  {
    if i == 0 {
    } else {
      UnrespelledIsSpelled(validate, maxTargets, ops, i - 1);
      RegistryAgrees(validate, maxTargets, ops[..i - 1]);
      StepsNext(validate, maxTargets, ops, i - 1);
      StepSpells(validate, maxTargets, Steps(validate, maxTargets, ops[..i - 1]), ops[i - 1]);
    }
  }

  /** A restart restores the registry exactly at every point of its history if and only if no accepted
      add ever respells a target that is present. */
  lemma ExactlyRestoredIff(validate: Validator, maxTargets: nat, ops: seq<Op>)
    requires Replays(validate)
    ensures AlwaysRestored(validate, maxTargets, ops) <==> NeverRespelled(validate, maxTargets, ops)
  {
    if NeverRespelled(validate, maxTargets, ops) {
      forall i | 0 <= i <= |ops|
        ensures var r := Steps(validate, maxTargets, ops[..i]); Step(validate, maxTargets, r, Restart) == r
      {
        UnrespelledIsSpelled(validate, maxTargets, ops, i);
        RegistryAgrees(validate, maxTargets, ops[..i]);
        RestartKeepsIff(validate, maxTargets, Steps(validate, maxTargets, ops[..i]));
      }
    }
    if AlwaysRestored(validate, maxTargets, ops) {
      forall i | 0 <= i < |ops|
        ensures !Respells(validate, maxTargets, Steps(validate, maxTargets, ops[..i]), ops[i])
      {
        var r, r' := Steps(validate, maxTargets, ops[..i]), Steps(validate, maxTargets, ops[..i + 1]);
        RegistryAgrees(validate, maxTargets, ops[..i]);
        RegistryAgrees(validate, maxTargets, ops[..i + 1]);
        RestartKeepsIff(validate, maxTargets, r);
        RestartKeepsIff(validate, maxTargets, r');
        StepsNext(validate, maxTargets, ops, i);
        StepSpells(validate, maxTargets, r, ops[i]);
      }
    }
  }

  /** A respelling is undone by the next restart: it brings back what was there before. */
  lemma RestartUndoesRespelling(validate: Validator, maxTargets: nat, r: Reg, op: Op)
    requires Agree(validate, r) && SpelledAsSaved(r) && Respells(validate, maxTargets, r, op)
    ensures var r' := Step(validate, maxTargets, r, op);
            r' != r && Step(validate, maxTargets, r', Restart) == r
  {
    StepSpells(validate, maxTargets, r, op);
    RestartKeepsIff(validate, maxTargets, r);
  }

  /** Two accepted inputs name one tenant exactly when they differ in case and outer white space only. */
  lemma SpellingsOfOneTarget(x: Text, a: string, b: string)
    requires forall c :: x.lowerChar(x.lowerChar(c)) == x.lowerChar(c)
    requires ValidateTarget(x, a).Ok?
    ensures Lower(x, Trim(x, a)) == Lower(x, Trim(x, b)) <==>
            ValidateTarget(x, b).Ok? && ValidateTarget(x, b).value.canonical == ValidateTarget(x, a).value.canonical
  {
    CanonicalRoundTrip(x, a);
    if ValidateTarget(x, b).Ok? { CanonicalRoundTrip(x, b); }
  }

  lemma PresentIsValid(validate: Validator, r: Reg, c: string) returns (raw: string)
    requires Agree(validate, r) && c in r.targets
    ensures validate(raw) == Ok(Target(raw, c))
  {
    SavedMember(r.saved, c);
    var i :| 0 <= i < |r.saved| && r.saved[i].canonical == c;
    raw := r.saved[i].raw;
  }

  /** An input whose trimmed lower-case form is the name of a present tenant is accepted. */
  lemma PresentNameIsAccepted(x: Text, r: Reg, raw: string)
    requires forall c :: x.lowerChar(x.lowerChar(c)) == x.lowerChar(c)
    requires Agree(TenantValidator(x), r) && Lower(x, Trim(x, raw)) in r.targets
    ensures ValidateTarget(x, raw).Ok?
  {
    var first := PresentIsValid(TenantValidator(x), r, Lower(x, Trim(x, raw)));
    ValidatedAs(x, first);
    SpellingsOfOneTarget(x, first, raw);
  }

  /** For tenants: a target that is present in other case or with other outer white space. */
  lemma TenantRespellsIff(x: Text, maxTargets: nat, r: Reg, raw: string)
    requires forall c :: x.lowerChar(x.lowerChar(c)) == x.lowerChar(c)
    requires Agree(TenantValidator(x), r)
    ensures Respells(TenantValidator(x), maxTargets, r, Add(raw)) <==>
            && CanAdd(maxTargets, |r.targets|)
            && Lower(x, Trim(x, raw)) in r.targets && r.targets[Lower(x, Trim(x, raw))].raw != Trim(x, raw)
  {
    if Lower(x, Trim(x, raw)) in r.targets { PresentNameIsAccepted(x, r, raw); }
    if ValidateTarget(x, raw).Ok? { ValidatedAs(x, raw); }
  }

  /** Plain ASCII: the blank is white space, and capitals have small letters. */
  const ASCII := Text.Text(c => c == ' ', c => if 'A' <= c <= 'Z' then (c as int + 32) as char else c)

  lemma ValidatesAs(x: Text, raw: string, p: string, d: string)
    requires Trim(x, raw) == raw && Lower(x, raw) == p + ":" + d
    requires p == "m365" && '.' in d && Lower(x, p) == p && Lower(x, d) == d
    ensures ValidateTarget(x, raw) == Ok(Target(raw, p + ":" + d))
  {
    var s := p + ":" + d;
    ColonUnique(s, |p|);
    assert s[..|p|] == p && s[|p| + 1..] == d;
  }

  /** One tenant, spelled twice. */
  lemma AsciiSpellings()
    ensures ValidateTarget(ASCII, "m365:a.b") == Ok(Target("m365:a.b", "m365:a.b"))
    ensures ValidateTarget(ASCII, "M365:a.b") == Ok(Target("M365:a.b", "m365:a.b"))
  {
    var a, b := "m365:a.b", "M365:a.b";
    TrimKeeps(ASCII, a);
    TrimKeeps(ASCII, b);
    assert Lower(ASCII, a) == a == "m365" + ":" + "a.b";
    assert Lower(ASCII, b) == a;
    assert Lower(ASCII, "m365") == "m365" && Lower(ASCII, "a.b") == "a.b";
    assert "a.b"[1] == '.';
    ValidatesAs(ASCII, a, "m365", "a.b");
    ValidatesAs(ASCII, b, "m365", "a.b");
  }

  lemma ReviewCheckIsLower()
    ensures Lower(ASCII, "tenant.manual-review") == "tenant.manual-review"
    ensures forall c :: ASCII.lowerChar(ASCII.lowerChar(c)) == ASCII.lowerChar(c)
  {
  }

  /** One target and another it shares fingerprints with. */
  lemma AsciiTargetsCollide(raw: string)
    requires ValidateTarget(ASCII, raw).Ok?
    ensures var other := ValidateTarget(ASCII, Trim(ASCII, raw) + ("|" + "tenant.manual-review"));
            && other.Ok? && other.value.canonical != ValidateTarget(ASCII, raw).value.canonical
            && ShareText(TENANT_CHECKS, "tenantwatch", ValidateTarget(ASCII, raw).value.canonical,
                         "tenantwatch", other.value.canonical)
  {
    TenantChecksAreBarFree();
    ReviewCheckIsLower();
    EveryTargetCanCollide(ASCII, raw, "tenantwatch", TENANT_CHECKS, "tenant.manual-review");
  }

  // ----- the objects -----

  /** DeleteTarget's in-place filter: kept rows are written over the front of the same slice. */
  method CompactInPlace(list: array<Saved>, canonical: string) returns (n: nat)
    modifies list
    ensures n <= list.Length && list[..n] == Filter(old(list[..]), Other(canonical))
  {
    n := 0;
    ghost var rows := list[..];
    for i := 0 to list.Length
      invariant n <= i
      invariant list[..n] == Filter(rows[..i], Other(canonical))
      invariant list[i..] == rows[i..]
    {
      var t := list[i];
      assert t == rows[i] by { assert list[i..][0] == rows[i..][0]; }
      assert rows[..i + 1][..i] == rows[..i];
      assert list[i + 1..] == list[i..][1..] == rows[i + 1..];
      if t.canonical != canonical {
        ghost var kept := list[..n];
        list[n] := t;
        assert list[..n + 1] == kept + [t];
        assert list[i + 1..] == rows[i + 1..];
        n := n + 1;
      }
    }
    assert rows[..list.Length] == rows;
  }

  /** The server's view: the scheduler's map and the target store behind one set of handlers. */
  class Server {
    const validate: Validator
    const maxTargets: nat
    var targets: map<string, Target>
    var saved: seq<Saved>

    ghost function State(): Reg
      reads this
    {
      Reg(targets, saved)
    }

    constructor (validate: Validator, maxTargets: nat)
      ensures this.validate == validate && this.maxTargets == maxTargets && State() == Reg(map[], [])
    {
      this.validate, this.maxTargets := validate, maxTargets;
      targets, saved := map[], [];
    }

    method SaveTarget(t: Target)
      modifies this`saved
      ensures saved == old(saved) + if IsSaved(old(saved), t.canonical) then [] else [Saved(t.raw, t.canonical)]
    {
      for i := 0 to |saved|
        invariant forall j :: 0 <= j < i ==> saved[j].canonical != t.canonical
        invariant saved == old(saved)
      {
        if saved[i].canonical == t.canonical { return; }
      }
      saved := saved + [Saved(t.raw, t.canonical)];
    }

    /** handleAddTarget, answering with the HTTP status code. */
    method HandleAddTarget(raw: string) returns (code: int)
      modifies this
      ensures State() == Step(validate, maxTargets, old(State()), Add(raw))
      ensures code == 402 <==> maxTargets != 0 && |old(targets)| >= maxTargets
      ensures code == 400 <==> (maxTargets == 0 || |old(targets)| < maxTargets) && validate(raw).Err?
      ensures code in {200, 400, 402} && (code != 200 ==> targets == old(targets) && saved == old(saved))
      ensures code == 200 ==>
        var t := validate(raw).value;
        && targets == old(targets)[t.canonical := t]
        && saved == old(saved) + if IsSaved(old(saved), t.canonical) then [] else [Saved(t.raw, t.canonical)]
    {
      if !CanAdd(maxTargets, |targets|) { return 402; }
      var v := validate(raw);
      if v.Err? { return 400; }
      targets := targets[v.value.canonical := v.value];
      SaveTarget(v.value);
      return 200;
    }

    method HandleRemoveTarget(canonical: string) returns (code: int)
      modifies this
      ensures State() == Step(validate, maxTargets, old(State()), Remove(canonical))
      ensures code == (if canonical == "" then 400 else 200)
      ensures code == 400 ==> targets == old(targets) && saved == old(saved)
      ensures code == 200 ==> targets == old(targets) - {canonical} && saved == Filter(old(saved), Other(canonical))
    {
      if canonical == "" { return 400; }
      targets := targets - {canonical};
      var rows := saved;
      var buffer := new Saved[|rows|](i requires 0 <= i < |rows| => rows[i]);
      assert buffer[..] == rows;
      var n := CompactInPlace(buffer, canonical);
      saved := buffer[..n];
      return 200;
    }

    /** Start-up: an empty scheduler, and every saved raw input added again. */
    method RestoreTargets()
      modifies this
      ensures State() == Step(validate, maxTargets, old(State()), Restart)
    {
      targets := map[];
      for i := 0 to |saved|
        invariant saved == old(saved) && targets == Replayed(validate, saved[..i])
      {
        assert saved[..i + 1][..i] == saved[..i];
        var v := validate(saved[i].raw);
        if v.Ok? { targets := targets[v.value.canonical := v.value]; }
      }
      assert saved[..|saved|] == saved;
    }
  }
}
