/** Record identifiers: store/ulid.go, after the ULID specification ("Encoding", "Sorting",
    "Binary Layout and Byte Order"). */
module Ulid {
  import opened Core
  import opened Seqs

  type Byte = x: int | 0 <= x < 256

  const CROCKFORD: string := "0123456789ABCDEFGHJKMNPQRSTVWXYZ"

  // ----- positional notation, most significant digit first -----

  function Eval(digits: seq<nat>, base: nat): nat {
    if digits == [] then 0
    else Eval(digits[..|digits| - 1], base) * base + digits[|digits| - 1]
  }

  /** The `n` lowest base-32 digits of `v`. */
  function Digits(v: nat, n: nat): (d: seq<nat>)
    ensures |d| == n && forall i :: 0 <= i < n ==> d[i] < 32
  {
    if n == 0 then [] else Digits(v / 32, n - 1) + [v % 32]
  }

  function Power(base: nat, n: nat): nat {
    if n == 0 then 1 else base * Power(base, n - 1)
  }

  lemma {:induction false} DigitsEval(v: nat, n: nat)
    requires v < Power(32, n)
    ensures Eval(Digits(v, n), 32) == v
  {
    if n == 0 {
    } else {
      assert v / 32 < Power(32, n - 1);
      DigitsEval(v / 32, n - 1);
      assert Digits(v, n)[..n - 1] == Digits(v / 32, n - 1);
    }
  }

  /** Lexicographic order on sequences of equal length: the first difference decides. */
  ghost predicate Precedes(a: seq<nat>, b: seq<nat>)
    requires |a| == |b|
  {
    exists i :: 0 <= i < |a| && a[..i] == b[..i] && a[i] < b[i]
  }

  lemma {:induction false} PrecedesLast(a: seq<nat>, x: nat, b: seq<nat>, y: nat)
    requires |a| == |b|
    ensures Precedes(a + [x], b + [y]) <==> Precedes(a, b) || (a == b && x < y)
  {
    var c, d := a + [x], b + [y];
    if Precedes(c, d) {
      var i :| 0 <= i < |c| && c[..i] == d[..i] && c[i] < d[i];
      if i < |a| {
        assert a[..i] == c[..i] == d[..i] == b[..i];
      } else {
        assert a == c[..i] == d[..i] == b;
      }
    }
    if Precedes(a, b) {
      var i :| 0 <= i < |a| && a[..i] == b[..i] && a[i] < b[i];
      assert c[..i] == a[..i] == b[..i] == d[..i] && c[i] < d[i];
    }
    if a == b && x < y {
      assert c[..|a|] == a == b == d[..|a|] && c[|a|] < d[|a|];
    }
  }

  lemma Dominates(u: nat, x: nat, v: nat, y: nat, base: nat)
    requires x < base && y < base
    ensures u * base + x < v * base + y <==> u < v || (u == v && x < y)
    ensures u * base + x == v * base + y <==> u == v && x == y
  {
    if u < v {
      assert (u + 1) * base <= v * base;
    } else if v < u {
      assert (v + 1) * base <= u * base;
    }
  }

  /** Numerals of equal length sort as the numbers they denote, in every base. */
  lemma {:induction false} EvalOrder(a: seq<nat>, b: seq<nat>, base: nat)
    requires |a| == |b|
    requires forall i :: 0 <= i < |a| ==> a[i] < base && b[i] < base
    ensures Precedes(a, b) <==> Eval(a, base) < Eval(b, base)
    ensures a == b <==> Eval(a, base) == Eval(b, base)
  {
    if a == [] {
    } else {
      var n := |a| - 1;
      EvalOrder(a[..n], b[..n], base);
      PrecedesLast(a[..n], a[n], b[..n], b[n]);
      assert a == a[..n] + [a[n]] && b == b[..n] + [b[n]];
      Dominates(Eval(a[..n], base), a[n], Eval(b[..n], base), b[n], base);
    }
  }

  // ----- machine arithmetic -----

  /** Bitwise or on natural numbers. */
  function BitOr(a: nat, b: nat): nat
    decreases a + b
  {
    if a == 0 && b == 0 then 0
    else (if a % 2 == 1 || b % 2 == 1 then 1 else 0) + 2 * BitOr(a / 2, b / 2)
  }

  lemma {:induction false} BitOrZero(b: nat)
    ensures BitOr(0, b) == b
  {
    if b == 0 {
    } else {
      BitOrZero(b / 2);
    }
  }

  /** Or-ing operands without common bits adds them. */
  lemma {:induction false} BitOrDisjoint(a: nat, c: nat, k: nat)
    requires a < Power(2, k)
    ensures BitOr(a, c * Power(2, k)) == a + c * Power(2, k)
    decreases k
  {
    if k == 0 {
      BitOrZero(c);
    } else {
      var b := c * Power(2, k);
      assert b == 2 * (c * Power(2, k - 1));
      assert b / 2 == c * Power(2, k - 1);
      BitOrDisjoint(a / 2, c, k - 1);
      if a == 0 && b == 0 {} else {
        assert BitOr(a, b) == a % 2 + 2 * BitOr(a / 2, b / 2);
      }
    }
  }

  lemma PowersOfTwo()
    ensures Power(2, 59) == 0x800_0000_0000_0000
  {
    assert Power(2, 8) == 0x100;
    assert Power(2, 16) == 0x1_0000;
    assert Power(2, 24) == 0x100_0000;
    assert Power(2, 32) == 0x1_0000_0000;
    assert Power(2, 40) == 0x100_0000_0000;
    assert Power(2, 48) == 0x1_0000_0000_0000;
    assert Power(2, 56) == 0x100_0000_0000_0000;
  }

  /** `hi << 59` in 64 bits keeps the five lowest bits of `hi`. */
  lemma ShiftLeft59(hi: nat)
    ensures ShiftedCarry(hi) == (hi % 32) * 0x800_0000_0000_0000
  {
    var q, r := hi / 32, hi % 32;
    assert hi == 32 * q + r;
    ModUnique64(hi * 0x800_0000_0000_0000, q, r * 0x800_0000_0000_0000);
  }

  lemma ModUnique64(x: int, q: int, r: int)
    requires x == q * 0x1_0000_0000_0000_0000 + r && 0 <= r < 0x1_0000_0000_0000_0000
    ensures x % 0x1_0000_0000_0000_0000 == r
  {
  }

  function ShiftedCarry(hi: nat): nat {
    (hi * 0x800_0000_0000_0000) % 0x1_0000_0000_0000_0000
  }

  /** The 128-bit value held by two 64-bit words. */
  function Joined(hi: nat, lo: nat): nat {
    hi * 0x1_0000_0000_0000_0000 + lo
  }

  /** One turn of the loop shifts the 128-bit value right by five. */
  lemma ShiftAcrossWords(hi: nat, lo: nat)
    requires hi < 0x1_0000_0000_0000_0000 && lo < 0x1_0000_0000_0000_0000
    ensures
      var lo' := BitOr(lo / 32, ShiftedCarry(hi));
      lo' < 0x1_0000_0000_0000_0000 && Joined(hi / 32, lo') == Joined(hi, lo) / 32
  {
    PowersOfTwo();
    ShiftLeft59(hi);
    BitOrDisjoint(lo / 32, hi % 32, 59);
  }

  // ----- the encoder -----

  function Symbols(digits: seq<nat>): (s: string)
    requires forall i :: 0 <= i < |digits| ==> digits[i] < 32
    ensures |s| == |digits| && forall i :: 0 <= i < |s| ==> s[i] == CROCKFORD[digits[i]]
  {
    seq(|digits|, i requires 0 <= i < |digits| => CROCKFORD[digits[i]])
  }

  function Encoded(b: seq<Byte>): string {
    Symbols(Digits(Eval(b, 256), 26))
  }

  /** Big-endian load of eight bytes. */
  method LoadWord(b: seq<Byte>) returns (w: nat)
    requires |b| == 8
    ensures w == Eval(b, 256) < 0x1_0000_0000_0000_0000
  {
    w := 0;
    for i := 0 to 8
      invariant w == Eval(b[..i], 256)
    {
      assert b[..i + 1][..i] == b[..i];
      w := w * 256 + b[i];
    }
    assert b[..8] == b;
    EvalBound(b);
    PowersOf256();
  }

  lemma PowersOf256()
    ensures Power(256, 8) == 0x1_0000_0000_0000_0000
    ensures Power(256, 16) == 0x1_0000_0000_0000_0000_0000_0000_0000_0000
  {
    assert Power(256, 4) == 0x1_0000_0000;
    assert Power(256, 12) == 0x1_0000_0000_0000_0000_0000_0000;
  }

  lemma {:induction false} EvalConcat(a: seq<nat>, b: seq<nat>, base: nat)
    ensures Eval(a + b, base) == Eval(a, base) * Power(base, |b|) + Eval(b, base)
  {
    if b == [] {
      assert a + b == a;
    } else {
      var n := |b| - 1;
      assert (a + b)[..|a + b| - 1] == a + b[..n];
      EvalConcat(a, b[..n], base);
      Regroup(Eval(a, base), Power(base, n), Eval(b[..n], base), base);
    }
  }

  lemma Regroup(x: nat, p: nat, y: nat, base: nat)
    ensures (x * p + y) * base == x * (base * p) + y * base
  {
    assert x * (base * p) == x * p * base;
  }

  lemma JoinedBytes(b: seq<Byte>)
    requires |b| == 16
    ensures Eval(b, 256) == Joined(Eval(b[..8], 256), Eval(b[8..], 256))
  {
    EvalConcat(b[..8], b[8..], 256);
    assert b == b[..8] + b[8..];
    PowersOf256();
  }

  /** The digit emitted and the words kept by one turn account for the digits still owed. */
  lemma TurnEmitsLastDigit(hi: nat, lo: nat, n: nat)
    requires hi < 0x1_0000_0000_0000_0000 && lo < 0x1_0000_0000_0000_0000
    ensures Digits(Joined(hi, lo), n + 1)
         == Digits(Joined(hi / 32, BitOr(lo / 32, ShiftedCarry(hi))), n) + [lo % 32]
  {
    ShiftAcrossWords(hi, lo);
    LowDigit(hi, lo);
  }

  lemma LowDigit(hi: nat, lo: nat)
    ensures Joined(hi, lo) % 32 == lo % 32
  {
    assert Joined(hi, lo) == 32 * (hi * 0x800_0000_0000_0000) + lo;
  }

  /** encodeCrockford: the two-word shift loop emits exactly the 26 base-32 digits. */
  method EncodeCrockford(b: seq<Byte>) returns (s: string)
    requires |b| == 16
    ensures s == Encoded(b)
  {
    var out := new char[26];
    var hi := LoadWord(b[..8]);
    var lo := LoadWord(b[8..]);
    ghost var owed := Digits(Eval(b, 256), 26);
    JoinedBytes(b);
    var i := 25;
    while i >= 0
      invariant -1 <= i <= 25
      invariant 0 <= hi < 0x1_0000_0000_0000_0000 && 0 <= lo < 0x1_0000_0000_0000_0000
      invariant owed[..i + 1] == Digits(Joined(hi, lo), i + 1)
      invariant forall k :: i < k < 26 ==> out[k] == CROCKFORD[owed[k]]
    {
      TurnEmitsLastDigit(hi, lo, i);
      assert owed[i] == owed[..i + 1][i] && owed[..i] == owed[..i + 1][..i];
      out[i] := CROCKFORD[lo % 32];
      ShiftAcrossWords(hi, lo);
      hi, lo := hi / 32, BitOr(lo / 32, ShiftedCarry(hi));
      i := i - 1;
    }
    return out[..];
  }

  // ----- order -----

  lemma AlphabetIncreasing(i: nat, j: nat)
    requires i < j < 32
    ensures CROCKFORD[i] < CROCKFORD[j]
  {
  }

  lemma {:induction false} StrLessFirstDifference(s: string, t: string, i: nat)
    requires i < |s| && i < |t| && s[..i] == t[..i] && s[i] < t[i]
    ensures StrLess(s, t)
  {
    if i == 0 {
    } else {
      assert s[0] == s[..i][0] == t[..i][0] == t[0];
      assert s[1..][..i - 1] == s[..i][1..] == t[..i][1..] == t[1..][..i - 1];
      StrLessFirstDifference(s[1..], t[1..], i - 1);
    }
  }

  /** The alphabet is increasing, so symbol strings sort like the digits they render. */
  lemma SymbolsOrder(a: seq<nat>, b: seq<nat>)
    requires |a| == |b|
    requires forall i :: 0 <= i < |a| ==> a[i] < 32 && b[i] < 32
    requires Precedes(a, b)
    ensures StrLess(Symbols(a), Symbols(b))
  {
    var i :| 0 <= i < |a| && a[..i] == b[..i] && a[i] < b[i];
    AlphabetIncreasing(a[i], b[i]);
    forall k | 0 <= k < i ensures Symbols(a)[k] == Symbols(b)[k] {
      assert a[k] == a[..i][k] == b[..i][k] == b[k];
    }
    assert Symbols(a)[..i] == Symbols(b)[..i];
    StrLessFirstDifference(Symbols(a), Symbols(b), i);
  }

  lemma ValueFits(b: seq<Byte>)
    requires |b| == 16
    ensures Eval(b, 256) < Power(32, 26)
  {
    EvalBound(b);
    PowersOf256();
    assert Power(32, 5) == 0x200_0000;
    assert Power(32, 10) == Power(32, 5) * Power(32, 5);
    assert Power(32, 15) == Power(32, 10) * Power(32, 5);
    assert Power(32, 20) == Power(32, 15) * Power(32, 5);
    assert Power(32, 25) == Power(32, 20) * Power(32, 5);
  }

  lemma {:induction false} EvalBound(b: seq<Byte>)
    ensures Eval(b, 256) < Power(256, |b|)
  {
    if b == [] {
    } else {
      EvalBound(b[..|b| - 1]);
    }
  }

  /** Encoded strings sort exactly as the sixteen bytes do, and distinct bytes never collide. */
  lemma EncodingPreservesOrder(b: seq<Byte>, c: seq<Byte>)
    requires |b| == |c| == 16
    ensures StrLess(Encoded(b), Encoded(c)) <==> Precedes(b, c)
    ensures Encoded(b) == Encoded(c) <==> b == c
  {
    var v, w := Eval(b, 256), Eval(c, 256);
    ValueFits(b);
    ValueFits(c);
    DigitsEval(v, 26);
    DigitsEval(w, 26);
    EvalOrder(b, c, 256);
    EvalOrder(c, b, 256);
    EvalOrder(Digits(v, 26), Digits(w, 26), 32);
    EvalOrder(Digits(w, 26), Digits(v, 26), 32);
    StrLessTotal(Encoded(b), Encoded(c));
    if v < w {
      SymbolsOrder(Digits(v, 26), Digits(w, 26));
    } else if w < v {
      SymbolsOrder(Digits(w, 26), Digits(v, 26));
    }
  }

  // ----- timestamped identifiers -----

  /** Time.UnixMilli: Euclidean division by a positive divisor is the floor. */
  function UnixMilli(t: Time): int { t / 1_000_000 }

  function TimestampBytes(t: Time): (b: seq<Byte>)
    ensures |b| == 6
  {
    var ms := UnixMilli(t) % 0x1_0000_0000_0000_0000;  // conversion to uint64
    [ms / 0x100_0000_0000 % 256, ms / 0x1_0000_0000 % 256, ms / 0x100_0000 % 256,
     ms / 0x1_0000 % 256, ms / 0x100 % 256, ms % 256]
  }

  function NewUlid(t: Time, entropy: seq<Byte>): string
    requires |entropy| == 10
  {
    Encoded(TimestampBytes(t) + entropy)
  }

  /** Bytes cut out by shifting are the base-256 digits of the low 48 bits. */
  lemma LowBytes(ms: nat)
    ensures
      ((((ms / 0x100_0000_0000 % 256 * 256 + ms / 0x1_0000_0000 % 256) * 256
         + ms / 0x100_0000 % 256) * 256 + ms / 0x1_0000 % 256) * 256
       + ms / 0x100 % 256) * 256 + ms % 256
      == ms % 0x1_0000_0000_0000
  {
    var m1, m2, m3 := ms / 0x100, ms / 0x1_0000, ms / 0x100_0000;
    var m4, m5, m6 := ms / 0x1_0000_0000, ms / 0x100_0000_0000, ms / 0x1_0000_0000_0000;
    assert m1 / 256 == m2;
    assert m2 / 256 == m3;
    assert m3 / 256 == m4;
    assert m4 / 256 == m5;
    assert m5 / 256 == m6;
  }

  lemma ModUnique(x: int, q: int, r: int)
    requires x == q * 0x1_0000_0000_0000 + r && 0 <= r < 0x1_0000_0000_0000
    ensures x % 0x1_0000_0000_0000 == r
  {
  }

  lemma Low48(ms: int)
    ensures ms % 0x1_0000_0000_0000_0000 % 0x1_0000_0000_0000 == ms % 0x1_0000_0000_0000
  {
    var q, low := ms / 0x1_0000_0000_0000_0000, ms % 0x1_0000_0000_0000_0000;
    ModUnique(ms, q * 0x1_0000 + low / 0x1_0000_0000_0000, low % 0x1_0000_0000_0000);
  }

  lemma EvalSix(b: seq<nat>)
    requires |b| == 6
    ensures Eval(b, 256)
         == ((((b[0] * 256 + b[1]) * 256 + b[2]) * 256 + b[3]) * 256 + b[4]) * 256 + b[5]
  {
    assert b[..5][..4] == b[..4] && b[..4][..3] == b[..3];
    assert b[..3][..2] == b[..2] && b[..2][..1] == b[..1];
    assert Eval(b[..1], 256) == b[0];
    assert Eval(b[..2], 256) == b[0] * 256 + b[1];
    assert Eval(b[..3], 256) == Eval(b[..2], 256) * 256 + b[2];
    assert Eval(b[..4], 256) == Eval(b[..3], 256) * 256 + b[3];
    assert Eval(b[..5], 256) == Eval(b[..4], 256) * 256 + b[4];
  }

  lemma TimestampEval(t: Time)
    ensures Eval(TimestampBytes(t), 256) == UnixMilli(t) % 0x1_0000_0000_0000
  {
    EvalSix(TimestampBytes(t));
    LowBytes(UnixMilli(t) % 0x1_0000_0000_0000_0000);
    Low48(UnixMilli(t));
  }

  lemma TimestampValue(t: Time)
    requires 0 <= UnixMilli(t) < 0x1_0000_0000_0000
    ensures Eval(TimestampBytes(t), 256) == UnixMilli(t)
  {
    TimestampEval(t);
    ModUnique(UnixMilli(t), 0, UnixMilli(t));
  }

  lemma PrecedesExtended(a: seq<nat>, e: seq<nat>, b: seq<nat>, f: seq<nat>)
    requires |a| == |b| && |e| == |f| && Precedes(a, b)
    ensures Precedes(a + e, b + f)
  {
    var i :| 0 <= i < |a| && a[..i] == b[..i] && a[i] < b[i];
    assert (a + e)[..i] == a[..i] == b[..i] == (b + f)[..i] && (a + e)[i] < (b + f)[i];
  }

  lemma TimestampDecides(a: seq<Byte>, e: seq<Byte>, b: seq<Byte>, f: seq<Byte>)
    requires |a| == |b| == 6 && |e| == |f| == 10 && Eval(a, 256) < Eval(b, 256)
    ensures StrLess(Encoded(a + e), Encoded(b + f))
  {
    EvalOrder(a, b, 256);
    PrecedesExtended(a, e, b, f);
    EncodingPreservesOrder(a + e, b + f);
  }

  /** An identifier minted in an earlier millisecond sorts first, whatever the random bytes. */
  lemma EarlierSortsFirst(t: Time, e: seq<Byte>, u: Time, f: seq<Byte>)
    requires |e| == |f| == 10
    requires 0 <= UnixMilli(t) < UnixMilli(u) < 0x1_0000_0000_0000
    ensures StrLess(NewUlid(t, e), NewUlid(u, f))
  {
    TimestampValue(t);
    TimestampValue(u);
    TimestampDecides(TimestampBytes(t), e, TimestampBytes(u), f);
  }

  lemma SplitUlidBytes(a: seq<Byte>, e: seq<Byte>, b: seq<Byte>, f: seq<Byte>)
    requires |a| == |b| == 6 && |e| == |f| == 10
    ensures a + e == b + f <==> a == b && e == f
    ensures Precedes(a + e, b + f) <==> Precedes(a, b) || (a == b && Precedes(e, f))
  {
    var x, y := a + e, b + f;
    assert x[..6] == a && x[6..] == e && y[..6] == b && y[6..] == f;
    if Precedes(a, b) { PrecedesExtended(a, e, b, f); }
    if a == b && Precedes(e, f) {
      var i :| 0 <= i < |e| && e[..i] == f[..i] && e[i] < f[i];
      assert x[..6 + i] == a + e[..i] && y[..6 + i] == b + f[..i] && x[6 + i] < y[6 + i];
    }
    if Precedes(x, y) {
      var i :| 0 <= i < 16 && x[..i] == y[..i] && x[i] < y[i];
      if i < 6 {
        assert a[..i] == x[..i] && b[..i] == y[..i] && a[i] < b[i];
      } else {
        assert a == x[..i][..6] == y[..i][..6] == b;
        assert e[..i - 6] == x[..i][6..] && f[..i - 6] == y[..i][6..] && e[i - 6] < f[i - 6];
      }
    }
  }

  /** The milliseconds six bytes can hold: all of them up to the year 10889. */
  function Stamp(t: Time): nat { UnixMilli(t) % 0x1_0000_0000_0000 }

  lemma StampInRange(t: Time)
    requires 0 <= UnixMilli(t) < 0x1_0000_0000_0000
    ensures Stamp(t) == UnixMilli(t)
  {
    ModUnique(UnixMilli(t), 0, UnixMilli(t));
  }

  /** The six leading bytes compare as the stamps do. */
  lemma TimestampOrder(t: Time, u: Time)
    ensures TimestampBytes(t) == TimestampBytes(u) <==> Stamp(t) == Stamp(u)
    ensures Precedes(TimestampBytes(t), TimestampBytes(u)) <==> Stamp(t) < Stamp(u)
  {
    TimestampEval(t);
    TimestampEval(u);
    EvalOrder(TimestampBytes(t), TimestampBytes(u), 256);
  }

  /** Two identifiers are equal exactly when they have one stamp and the same ten random bytes, and
      they sort by the stamp first and by the random bytes within it. */
  lemma IdsCompareByTimeThenEntropy(t: Time, e: seq<Byte>, u: Time, f: seq<Byte>)
    requires |e| == |f| == 10
    ensures NewUlid(t, e) == NewUlid(u, f) <==> Stamp(t) == Stamp(u) && e == f
    ensures StrLess(NewUlid(t, e), NewUlid(u, f)) <==>
            Stamp(t) < Stamp(u) || (Stamp(t) == Stamp(u) && Precedes(e, f))
  {
    var a, b := TimestampBytes(t), TimestampBytes(u);
    TimestampOrder(t, u);
    SplitUlidBytes(a, e, b, f);
    EncodingPreservesOrder(a + e, b + f);
  }

  /** The alphabet is the ten digits and the capitals without I, L, O and U, in character order. */
  lemma AlphabetIsCrockford()
    ensures |CROCKFORD| == 32 && forall i, j :: 0 <= i < j < 32 ==> CROCKFORD[i] < CROCKFORD[j]
    ensures forall c :: c in CROCKFORD <==> '0' <= c <= '9' || ('A' <= c <= 'Z' && c !in "ILOU")
  {
    forall i, j | 0 <= i < j < 32 ensures CROCKFORD[i] < CROCKFORD[j] { AlphabetIncreasing(i, j); }
  }
}
