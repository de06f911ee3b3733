/** The identity a collector gives a finding: Fingerprint in core/finding.go, up to the hash. */
module Fingerprints {
  import opened Seqs

  /** What is hashed. */
  function Preimage(moduleId: string, target: string, check: string, discriminator: string): string {
    moduleId + "|" + target + "|" + check + "|" + discriminator
  }

  lemma PreimageSplits(m: string, t: string, c: string, d: string)
    ensures Preimage(m, t, c, d) == m + "|" + (t + "|" + (c + "|" + d))
  {
  }

  /** While module, target and check hold no bar, distinct findings are hashed from distinct text,
      so up to hash collisions a fingerprint belongs to one target. */
  lemma PreimageInjective(m: string, t: string, c: string, d: string, m': string, t': string, c': string, d': string)
    requires '|' !in m && '|' !in m' && '|' !in t && '|' !in t' && '|' !in c && '|' !in c'
    ensures Preimage(m, t, c, d) == Preimage(m', t', c', d') <==> m == m' && t == t' && c == c' && d == d'
  {
    PreimageSplits(m, t, c, d);
    PreimageSplits(m', t', c', d');
    JoinInjective('|', m, t + "|" + (c + "|" + d), m', t' + "|" + (c' + "|" + d'));
    JoinInjective('|', t, c + "|" + d, t', c' + "|" + d');
    JoinInjective('|', c, d, c', d');
  }

  // ----- when two targets share a fingerprint -----

  /** The checks a collector reports under: those that put text of the provider's into the
      discriminator, and those that leave it empty. */
  datatype Checks = Checks(free: set<string>, bare: set<string>)

  predicate BarFree(checks: Checks) {
    forall c :: c in checks.free + checks.bare ==> '|' !in c
  }

  /** A finding the collector can make. */
  predicate Made(checks: Checks, c: string, d: string) {
    c in checks.free || (c in checks.bare && d == "")
  }

  /** Some findings of two targets are hashed from the same text. */
  ghost predicate ShareText(checks: Checks, m: string, t: string, m': string, t': string) {
    exists c, d, c', d' ::
      Made(checks, c, d) && Made(checks, c', d') && Preimage(m, t, c, d) == Preimage(m', t', c', d')
  }

  /** Everything before the first bar. */
  function FirstSegment(s: string): (r: string)
    ensures r <= s && '|' !in r
  {
    if s == "" || s[0] == '|' then "" else [s[0]] + FirstSegment(s[1..])
  }

  /** `t'` is `t`, a bar, and text that starts with the name of a check that takes any discriminator. */
  predicate ExtendsByCheck(checks: Checks, t: string, t': string) {
    t + "|" <= t' && FirstSegment(t'[|t| + 1..]) in checks.free
  }

  lemma {:induction false} FirstSegmentUnique(c: string, d: string)
    requires '|' !in c
    ensures FirstSegment(c + "|" + d) == c
  {
    if c == "" {
      assert (c + "|" + d)[0] == '|';
    } else {
      assert (c + "|" + d)[1..] == c[1..] + "|" + d;
      FirstSegmentUnique(c[1..], d);
    }
  }

  lemma {:induction false} BarFreeSegment(c: string)
    requires '|' !in c
    ensures FirstSegment(c) == c
  {
    if c == "" {
    } else {
      BarFreeSegment(c[1..]);
    }
  }

  /** Text behind a bar does not change the first segment, and is what follows it. */
  lemma {:induction false} SegmentThenRest(x: string, y: string) returns (rest: string)
    ensures x + "|" + y == FirstSegment(x) + "|" + rest && |y| <= |rest|
    ensures FirstSegment(x + "|" + y) == FirstSegment(x)
  {
    if x == "" || x[0] == '|' {
      rest := (x + "|" + y)[1..];
    } else {
      assert (x + "|" + y)[1..] == x[1..] + "|" + y;
      rest := SegmentThenRest(x[1..], y);
    }
  }

  lemma SplitBehind(t: string, r: string, t': string, r': string)
    requires t + "|" + r == t' + "|" + r'
    ensures |t| == |t'| ==> t == t'
    ensures |t| < |t'| ==> t + "|" <= t' && r == t'[|t| + 1..] + "|" + r'
  {
    var s := t + "|" + r;
    assert s[..|t|] == t && s[..|t'|] == t';
    if |t| < |t'| {
      assert t'[..|t| + 1] == s[..|t| + 1] == t + "|";
      assert r == s[|t| + 1..];
    }
  }

  /** The shorter target's check is the text behind the bar, up to the next bar, and its
      discriminator is not empty. */
  lemma LongerNamesCheck(checks: Checks, t: string, c: string, d: string, t': string, c': string, d': string)
    requires BarFree(checks) && Made(checks, c, d) && |t| < |t'|
    requires t + "|" + (c + "|" + d) == t' + "|" + (c' + "|" + d')
    ensures ExtendsByCheck(checks, t, t')
  {
    SplitBehind(t, c + "|" + d, t', c' + "|" + d');
    var x, y := t'[|t| + 1..], c' + "|" + d';
    FirstSegmentUnique(c, d);
    var rest := SegmentThenRest(x, y);
    JoinInjective('|', c, d, FirstSegment(x), rest);
  }

  lemma SharedTextNamesCheck(checks: Checks, m: string, t: string, c: string, d: string,
                             m': string, t': string, c': string, d': string)
    requires BarFree(checks) && '|' !in m && '|' !in m' && t != t'
    requires Made(checks, c, d) && Made(checks, c', d') && Preimage(m, t, c, d) == Preimage(m', t', c', d')
    ensures m == m' && (ExtendsByCheck(checks, t, t') || ExtendsByCheck(checks, t', t))
  {
    var r, r' := c + "|" + d, c' + "|" + d';
    PreimageSplits(m, t, c, d);
    PreimageSplits(m', t', c', d');
    JoinInjective('|', m, t + "|" + r, m', t' + "|" + r');
    SplitBehind(t, r, t', r');
    if |t| < |t'| {
      LongerNamesCheck(checks, t, c, d, t', c', d');
    } else {
      LongerNamesCheck(checks, t', c', d', t, c, d);
    }
  }

  lemma CheckShares(checks: Checks, m: string, t: string, t': string)
    requires ExtendsByCheck(checks, t, t')
    ensures ShareText(checks, m, t, m, t') && ShareText(checks, m, t', m, t)
  {
    var x := t'[|t| + 1..];
    var c := FirstSegment(x);
    var d := SegmentThenRest(x, c + "|");
    assert t' == t + "|" + x;
    PreimageSplits(m, t, c, d);
    PreimageSplits(m, t', c, "");
    assert t + "|" + (c + "|" + d) == t' + "|" + (c + "|" + "");
    assert Preimage(m, t, c, d) == Preimage(m, t', c, "");
  }

  /** Two targets can share a fingerprint exactly when one of them is the other, a bar, and text that
      starts with the name of a check. Whoever adds a target can look for that. */
  lemma TargetsShareText(checks: Checks, m: string, t: string, m': string, t': string)
    requires BarFree(checks) && '|' !in m && '|' !in m' && t != t'
    ensures ShareText(checks, m, t, m', t') <==>
            m == m' && (ExtendsByCheck(checks, t, t') || ExtendsByCheck(checks, t', t))
  {
    if c, d, c', d' :|
      Made(checks, c, d) && Made(checks, c', d') && Preimage(m, t, c, d) == Preimage(m', t', c', d')
    {
      SharedTextNamesCheck(checks, m, t, c, d, m', t', c', d');
    }
    if m == m' && ExtendsByCheck(checks, t, t') { CheckShares(checks, m, t, t'); }
    if m == m' && ExtendsByCheck(checks, t', t) { CheckShares(checks, m, t', t); }
  }

  /** The checks of the product's only collector. */
  const TENANT_CHECKS := Checks(
    {"tenant.signin-legacy-auth", "tenant.signin-admin-1fa", "tenant.signin-suspicious",
     "tenant.signin-country-hop", "tenant.signin-spray", "tenant.admin-mfa", "tenant.risky-oauth",
     "tenant.mail-forward", "tenant.email-auth", "tenant.manual-review"},
    {"tenant.user-mfa", "tenant.legacy-auth", "tenant.admin-sprawl", "tenant.external-sharing",
     "tenant.no-conditional-access", "tenant.inactive-user"})

  lemma TenantChecksAreBarFree()
    ensures BarFree(TENANT_CHECKS)
  {
  }
}
