/** Evidence sanitising before it leaves for the model: internal/aiclient/evidence.go. */
module Sanitizer {
  import opened Core
  import opened Seqs

  const MAX_KEYS := 24
  const MAX_STRING := 400
  const MAX_LIST := 12
  const MAX_DEPTH := 3

  const ELLIPSIS: string := "\U{2026}"
  const OMITTED: Json := Text("[omitted: nested too deep]")

  const MARKERS: seq<string> := [
    "password", "passwd", "passphrase", "secret", "token", "apikey",
    "api_key", "api-key", "private", "credential", "cookie", "session",
    "authorization", "bearer", "license_key", "licence_key", "signature"]

  predicate Contains(s: string, part: string) {
    part <= s || (s != [] && Contains(s[1..], part))
  }

  /** `lower` is the case mapping; nothing below depends on which one. */
  predicate IsSecretKey(lower: string -> string, k: string) {
    exists m :: m in MARKERS && Contains(lower(k), m)
  }

  function SecretFn(lower: string -> string): string -> bool {
    (k: string) => IsSecretKey(lower, k)
  }

  function TruncateRunes(s: string, n: nat): string {
    if |s| <= n then s else s[..n] + ELLIPSIS
  }

  // ----- which keys survive -----

  /** The keys that may be kept, and those of them that sort before `k`. */
  function Harmless(secret: string -> bool, m: map<string, Json>): set<string> {
    set k | k in m && !secret(k)
  }

  function Below(keys: set<string>, k: string): set<string> {
    set j | j in keys && StrLess(j, k)
  }

  /** The first MAX_KEYS in sorted order. */
  function Smallest(keys: set<string>): set<string> {
    set k | k in keys && |Below(keys, k)| < MAX_KEYS
  }

  function Kept(secret: string -> bool, m: map<string, Json>): set<string> {
    Smallest(Harmless(secret, m))
  }

  // ----- the transformation -----

  function Sanitized(secret: string -> bool, v: Json, depth: nat): Json
    decreases if depth < MAX_DEPTH then MAX_DEPTH - depth else 0, 0
  {
    match v
    case Text(s) => Text(TruncateRunes(s, MAX_STRING))
    case Object(fields) =>
      if depth >= MAX_DEPTH then OMITTED else Object(SanitizedMap(secret, fields, depth + 1))
    case List(items) =>
      if depth >= MAX_DEPTH then OMITTED else List(SanitizedItems(secret, FirstItems(items), depth + 1))
    case Strings(texts) =>
      List(TruncatedTexts(FirstItems(texts)))
    case _ => v
  }

  function SanitizedMap(secret: string -> bool, m: map<string, Json>, depth: nat): map<string, Json>
    decreases if depth < MAX_DEPTH then MAX_DEPTH - depth else 0, 1
  {
    map k | k in Kept(secret, m) :: Sanitized(secret, m[k], depth)
  }

  function SanitizedItems(secret: string -> bool, items: seq<Json>, depth: nat): (r: seq<Json>)
    ensures |r| == |items|
    decreases if depth < MAX_DEPTH then MAX_DEPTH - depth else 0, 1, |items|
  {
    if items == [] then []
    else SanitizedItems(secret, items[..|items| - 1], depth) + [Sanitized(secret, items[|items| - 1], depth)]
  }

  lemma {:induction false} ItemsAreSanitized(secret: string -> bool, items: seq<Json>, depth: nat)
    ensures forall i :: 0 <= i < |items| ==>
              SanitizedItems(secret, items, depth)[i] == Sanitized(secret, items[i], depth)
    decreases |items|
  {
    if items == [] {
    } else {
      ItemsAreSanitized(secret, items[..|items| - 1], depth);
    }
  }

  function FirstItems<T>(s: seq<T>): seq<T> { if |s| <= MAX_LIST then s else s[..MAX_LIST] }

  function TruncatedTexts(texts: seq<string>): (r: seq<Json>)
    ensures |r| == |texts| && forall i :: 0 <= i < |r| ==> r[i] == Text(TruncateRunes(texts[i], MAX_STRING))
  {
    seq(|texts|, i requires 0 <= i < |texts| => Text(TruncateRunes(texts[i], MAX_STRING)))
  }

  /** SanitizeEvidence; an absent map is the empty one. */
  function SanitizedEvidence(secret: string -> bool, m: map<string, Json>): map<string, Json> {
    SanitizedMap(secret, m, 1)
  }

  // ----- what comes out of what -----

  lemma {:induction false} ContainsInside(a: string, part: string, b: string)
    ensures Contains(a + part + b, part)
  {
    var s := a + part + b;
    if a == "" {
      assert part <= s;
    } else {
      assert s[1..] == a[1..] + part + b;
      ContainsInside(a[1..], part, b);
    }
  }

  lemma {:induction false} ContainsSplits(s: string, part: string) returns (a: string, b: string)
    requires Contains(s, part)
    ensures s == a + part + b
  {
    if part <= s {
      a, b := "", s[|part|..];
    } else {
      a, b := ContainsSplits(s[1..], part);
      a := [s[0]] + a;
    }
  }

  /** A key is marked iff its lower-case form has one of the markers anywhere in it. */
  lemma MarkedIff(lower: string -> string, k: string)
    ensures IsSecretKey(lower, k) <==> exists m, a, b :: m in MARKERS && lower(k) == a + m + b
  {
    if IsSecretKey(lower, k) {
      var m :| m in MARKERS && Contains(lower(k), m);
      var a, b := ContainsSplits(lower(k), m);
    }
    if m, a, b :| m in MARKERS && lower(k) == a + m + b { ContainsInside(a, m, b); }
  }

  /** A text keeps its first 400 runes, and says so when there were more. */
  lemma TextKeepsHead(secret: string -> bool, s: string, depth: nat)
    ensures Sanitized(secret, Text(s), depth) == Text(if |s| <= 400 then s else s[..400] + ELLIPSIS)
  {
  }

  /** A list keeps its first twelve items, each sanitised one level deeper, in order. */
  lemma ListKeepsHead(secret: string -> bool, items: seq<Json>, depth: nat)
    ensures depth >= 3 ==> Sanitized(secret, List(items), depth) == OMITTED
    ensures depth < 3 ==>
              var r := Sanitized(secret, List(items), depth);
              && r.List? && |r.items| == (if |items| < 12 then |items| else 12)
              && forall i :: 0 <= i < |r.items| ==> r.items[i] == Sanitized(secret, items[i], depth + 1)
  {
    if depth < 3 { ItemsAreSanitized(secret, FirstItems(items), depth + 1); }
  }

  /** A typed slice becomes the list of its first twelve texts, at any level. */
  lemma SliceKeepsHead(secret: string -> bool, texts: seq<string>, depth: nat)
    ensures var r := Sanitized(secret, Strings(texts), depth);
            && r.List? && |r.items| == (if |texts| < 12 then |texts| else 12)
            && forall i :: 0 <= i < |r.items| ==> r.items[i] == Sanitized(secret, Text(texts[i]), depth)
  {
    StringsUnfold(secret, texts, depth);
  }

  function UnmarkedBefore(secret: string -> bool, m: map<string, Json>, k: string): set<string> {
    set j | j in m && !secret(j) && StrLess(j, k)
  }

  /** A map keeps the unmarked keys with fewer than twenty-four unmarked ones before them. */
  lemma MapKeepsSmallest(secret: string -> bool, m: map<string, Json>, depth: nat)
    ensures depth >= 3 ==> Sanitized(secret, Object(m), depth) == OMITTED
    ensures depth < 3 ==> Sanitized(secret, Object(m), depth) == Object(SanitizedMap(secret, m, depth + 1))
    ensures var r := SanitizedMap(secret, m, depth);
            && (forall k :: k in r <==> k in m && !secret(k) && |UnmarkedBefore(secret, m, k)| < 24)
            && forall k :: k in r ==> r[k] == Sanitized(secret, m[k], depth)
  {
    forall k ensures k in Kept(secret, m) <==> k in m && !secret(k) && |UnmarkedBefore(secret, m, k)| < 24 {
      assert Below(Harmless(secret, m), k) == UnmarkedBefore(secret, m, k);
    }
  }

  /** Everything else passes as it is. */
  lemma ScalarsPass(secret: string -> bool, v: Json, depth: nat)
    requires v.Null? || v.Bool? || v.Number?
    ensures Sanitized(secret, v, depth) == v
  {
  }

  // ----- key selection facts -----

  lemma SubsetSize<T>(a: set<T>, b: set<T>)
    requires a <= b
    ensures |a| <= |b|
    ensures |a| == |b| ==> a == b
  {
    assert b == a + (b - a);
  }

  lemma {:induction false} Greatest(keys: set<string>) returns (k: string)
    requires keys != {}
    ensures k in keys && forall j :: j in keys && j != k ==> StrLess(j, k)
  {
    var x :| x in keys;
    var rest := keys - {x};
    if rest == {} {
      k := x;
      assert forall j :: j in keys ==> j == x || j in rest;
    } else {
      var y := Greatest(rest);
      StrLessTotal(x, y);
      assert keys == rest + {x};
      if StrLess(x, y) {
        k := y;
      } else {
        k := x;
        forall j | j in keys && j != x ensures StrLess(j, x) {
          if j != y { StrLessTransitive(j, y, x); }
        }
      }
    }
  }

  /** At most MAX_KEYS survive. */
  lemma SmallestBounded(keys: set<string>)
    ensures |Smallest(keys)| <= MAX_KEYS && Smallest(keys) <= keys
  {
    var s := Smallest(keys);
    if s != {} {
      var k := Greatest(s);
      assert s - {k} <= Below(keys, k);
      SubsetSize(s - {k}, Below(keys, k));
      assert |s - {k}| == |s| - 1;
    }
  }

  /** A set that is small enough is kept whole, and only such a set. */
  lemma SmallestIsAll(keys: set<string>)
    ensures Smallest(keys) == keys <==> |keys| <= MAX_KEYS
  {
    SmallestBounded(keys);
    if |keys| <= MAX_KEYS {
      forall k | k in keys ensures |Below(keys, k)| < MAX_KEYS {
        StrLessTotal(k, k);
        assert Below(keys, k) <= keys - {k};
        SubsetSize(Below(keys, k), keys - {k});
        assert |keys - {k}| == |keys| - 1;
      }
    }
  }

  // ----- what a sanitised value looks like -----

  predicate CleanText(s: string) {
    |s| <= MAX_STRING || (|s| == MAX_STRING + 1 && s[MAX_STRING..] == ELLIPSIS)
  }

  /** Within every limit, free of marked keys, and without typed string slices. */
  predicate Clean(secret: string -> bool, v: Json, depth: nat)
    decreases if depth < MAX_DEPTH then MAX_DEPTH - depth else 0, 0
  {
    match v
    case Text(s) => CleanText(s)
    case Object(fields) => depth < MAX_DEPTH && CleanMap(secret, fields, depth + 1)
    case List(items) => depth < MAX_DEPTH && |items| <= MAX_LIST && CleanItems(secret, items, depth + 1)
    case Strings(_) => false
    case _ => true
  }

  predicate CleanItems(secret: string -> bool, items: seq<Json>, depth: nat)
    decreases if depth < MAX_DEPTH then MAX_DEPTH - depth else 0, 1
  {
    forall i :: 0 <= i < |items| ==> Clean(secret, items[i], depth)
  }

  predicate CleanMap(secret: string -> bool, m: map<string, Json>, depth: nat)
    decreases if depth < MAX_DEPTH then MAX_DEPTH - depth else 0, 1
  {
    |m| <= MAX_KEYS && forall k :: k in m ==> !secret(k) && Clean(secret, m[k], depth)
  }

  lemma TruncateFixed(s: string)
    ensures TruncateRunes(s, MAX_STRING) == s <==> CleanText(s)
    ensures CleanText(TruncateRunes(s, MAX_STRING))
  {
    assert |s| == MAX_STRING + 1 ==> s == s[..MAX_STRING] + s[MAX_STRING..];
    if |s| > MAX_STRING {
      assert (s[..MAX_STRING] + ELLIPSIS)[MAX_STRING..] == ELLIPSIS;
    }
  }

  lemma KeptIsAll(secret: string -> bool, m: map<string, Json>)
    ensures Kept(secret, m) == m.Keys <==> |m| <= MAX_KEYS && forall k :: k in m ==> !secret(k)
  {
    var h := Harmless(secret, m);
    SmallestBounded(h);
    SmallestIsAll(h);
    assert |m| == |m.Keys|;
    if forall k :: k in m ==> !secret(k) { assert h == m.Keys; }
    if Kept(secret, m) == m.Keys {
      assert h == m.Keys;
    }
  }

  /** The sanitiser leaves a value alone exactly when it is clean. */
  lemma {:induction false} FixedIffClean(secret: string -> bool, v: Json, depth: nat)
    ensures Sanitized(secret, v, depth) == v <==> Clean(secret, v, depth)
    decreases if depth < MAX_DEPTH then MAX_DEPTH - depth else 0, 1
  {
    match v
    case Text(s) => TextFixedIffClean(secret, s, depth);
    case Object(fields) => ObjectFixedIffClean(secret, fields, depth);
    case List(items) => ListValueFixedIffClean(secret, items, depth);
    case Strings(texts) => StringsUnfold(secret, texts, depth);
    case _ =>
  }

  lemma ObjectFixedIffClean(secret: string -> bool, fields: map<string, Json>, depth: nat)
    ensures Sanitized(secret, Object(fields), depth) == Object(fields) <==> Clean(secret, Object(fields), depth)
    decreases if depth < MAX_DEPTH then MAX_DEPTH - depth else 0, 0
  {
    SanitizedObject(secret, fields, depth);
    CleanObject(secret, fields, depth);
    if depth < MAX_DEPTH {
      MapFixedIffClean(secret, fields, depth + 1);
      SameObject(SanitizedMap(secret, fields, depth + 1), fields);
    }
  }

  lemma SameObject(a: map<string, Json>, b: map<string, Json>)
    ensures Object(a) == Object(b) <==> a == b
  {
  }

  lemma ListValueFixedIffClean(secret: string -> bool, items: seq<Json>, depth: nat)
    ensures Sanitized(secret, List(items), depth) == List(items) <==> Clean(secret, List(items), depth)
    decreases if depth < MAX_DEPTH then MAX_DEPTH - depth else 0, 0
  {
    SanitizedList(secret, items, depth);
    CleanList(secret, items, depth);
    if depth < MAX_DEPTH { ListFixedIffClean(secret, items, depth + 1); }
  }

  lemma TextFixedIffClean(secret: string -> bool, s: string, depth: nat)
    ensures Sanitized(secret, Text(s), depth) == Text(s) <==> Clean(secret, Text(s), depth)
    ensures Clean(secret, Sanitized(secret, Text(s), depth), depth)
  {
    TruncateFixed(s);
  }

  lemma SanitizedObject(secret: string -> bool, fields: map<string, Json>, depth: nat)
    ensures Sanitized(secret, Object(fields), depth)
         == if depth >= MAX_DEPTH then OMITTED else Object(SanitizedMap(secret, fields, depth + 1))
  {
  }

  lemma CleanObject(secret: string -> bool, fields: map<string, Json>, depth: nat)
    ensures Clean(secret, Object(fields), depth) <==> depth < MAX_DEPTH && CleanMap(secret, fields, depth + 1)
  {
  }

  lemma SanitizedList(secret: string -> bool, items: seq<Json>, depth: nat)
    ensures Sanitized(secret, List(items), depth)
         == if depth >= MAX_DEPTH then OMITTED else List(SanitizedItems(secret, FirstItems(items), depth + 1))
  {
  }

  lemma CleanList(secret: string -> bool, items: seq<Json>, depth: nat)
    ensures Clean(secret, List(items), depth)
       <==> depth < MAX_DEPTH && |items| <= MAX_LIST && CleanItems(secret, items, depth + 1)
  {
  }

  lemma StringsUnfold(secret: string -> bool, texts: seq<string>, depth: nat)
    ensures Sanitized(secret, Strings(texts), depth) == List(TruncatedTexts(FirstItems(texts)))
    ensures !Clean(secret, Strings(texts), depth)
  {
  }

  lemma ListFixedIffClean(secret: string -> bool, items: seq<Json>, depth: nat)
    ensures SanitizedItems(secret, FirstItems(items), depth) == items
       <==> |items| <= MAX_LIST && CleanItems(secret, items, depth)
    decreases if depth < MAX_DEPTH then MAX_DEPTH - depth else 0, 2
  {
    var r := SanitizedItems(secret, FirstItems(items), depth);
    ItemsAreSanitized(secret, FirstItems(items), depth);
    forall i | 0 <= i < |items|
      ensures Sanitized(secret, items[i], depth) == items[i] <==> Clean(secret, items[i], depth)
    {
      FixedIffClean(secret, items[i], depth);
    }
    if r == items {
      assert |items| <= MAX_LIST;
      forall i | 0 <= i < |items| ensures Clean(secret, items[i], depth) { assert r[i] == items[i]; }
    }
  }

  lemma MapFixedIffClean(secret: string -> bool, m: map<string, Json>, depth: nat)
    ensures SanitizedMap(secret, m, depth) == m <==> CleanMap(secret, m, depth)
    decreases if depth < MAX_DEPTH then MAX_DEPTH - depth else 0, 2
  {
    KeptIsAll(secret, m);
    SmallestBounded(Harmless(secret, m));
    var r := SanitizedMap(secret, m, depth);
    assert r.Keys == Kept(secret, m);
    forall k | k in m ensures Sanitized(secret, m[k], depth) == m[k] <==> Clean(secret, m[k], depth) {
      FixedIffClean(secret, m[k], depth);
    }
    if r == m {
      forall k | k in m ensures Clean(secret, m[k], depth) { assert r[k] == m[k]; }
    }
  }

  // ----- idempotence, and the one shape that breaks it -----

  /** A typed string slice that survives at the deepest level: it comes out as a list there, where
      lists are not allowed, so a second pass would replace it. */
  predicate DeepSlice(secret: string -> bool, v: Json, depth: nat)
    decreases if depth < MAX_DEPTH then MAX_DEPTH - depth else 0, 0
  {
    match v
    case Strings(_) => depth >= MAX_DEPTH
    case Object(fields) => depth < MAX_DEPTH && DeepSliceIn(secret, fields, depth + 1)
    case List(items) => depth < MAX_DEPTH && DeepSliceAmong(secret, FirstItems(items), depth + 1)
    case _ => false
  }

  predicate DeepSliceAmong(secret: string -> bool, items: seq<Json>, depth: nat)
    decreases if depth < MAX_DEPTH then MAX_DEPTH - depth else 0, 1
  {
    exists i :: 0 <= i < |items| && DeepSlice(secret, items[i], depth)
  }

  predicate DeepSliceIn(secret: string -> bool, m: map<string, Json>, depth: nat)
    decreases if depth < MAX_DEPTH then MAX_DEPTH - depth else 0, 1
  {
    exists k :: k in Kept(secret, m) && DeepSlice(secret, m[k], depth)
  }

  lemma {:induction false} CleanUnlessDeepSlice(secret: string -> bool, v: Json, depth: nat)
    ensures Clean(secret, Sanitized(secret, v, depth), depth) <==> !DeepSlice(secret, v, depth)
    decreases if depth < MAX_DEPTH then MAX_DEPTH - depth else 0, 1
  {
    match v
    case Text(s) => TextFixedIffClean(secret, s, depth);
    case Object(fields) => ObjectCleanUnlessDeepSlice(secret, fields, depth);
    case List(items) => ListValueCleanUnlessDeepSlice(secret, items, depth);
    case Strings(texts) => StringsCleanUnlessDeep(secret, texts, depth);
    case _ =>
  }

  lemma ObjectCleanUnlessDeepSlice(secret: string -> bool, fields: map<string, Json>, depth: nat)
    ensures Clean(secret, Sanitized(secret, Object(fields), depth), depth)
       <==> !DeepSlice(secret, Object(fields), depth)
    decreases if depth < MAX_DEPTH then MAX_DEPTH - depth else 0, 0
  {
    SanitizedObject(secret, fields, depth);
    if depth < MAX_DEPTH {
      MapCleanUnlessDeepSlice(secret, fields, depth + 1);
      CleanObject(secret, SanitizedMap(secret, fields, depth + 1), depth);
    } else {
      OmittedIsClean(secret, depth);
    }
  }

  lemma ListValueCleanUnlessDeepSlice(secret: string -> bool, items: seq<Json>, depth: nat)
    ensures Clean(secret, Sanitized(secret, List(items), depth), depth) <==> !DeepSlice(secret, List(items), depth)
    decreases if depth < MAX_DEPTH then MAX_DEPTH - depth else 0, 0
  {
    SanitizedList(secret, items, depth);
    if depth < MAX_DEPTH {
      ListCleanUnlessDeepSlice(secret, FirstItems(items), depth + 1);
      CleanList(secret, SanitizedItems(secret, FirstItems(items), depth + 1), depth);
    } else {
      OmittedIsClean(secret, depth);
    }
  }

  lemma StringsCleanUnlessDeep(secret: string -> bool, texts: seq<string>, depth: nat)
    ensures Clean(secret, Sanitized(secret, Strings(texts), depth), depth)
       <==> !DeepSlice(secret, Strings(texts), depth)
  {
    StringsUnfold(secret, texts, depth);
    SlicesAreClean(secret, FirstItems(texts), depth + 1);
    CleanList(secret, TruncatedTexts(FirstItems(texts)), depth);
  }

  lemma OmittedIsClean(secret: string -> bool, depth: nat)
    ensures Clean(secret, OMITTED, depth)
  {
  }

  lemma SlicesAreClean(secret: string -> bool, texts: seq<string>, depth: nat)
    ensures CleanItems(secret, TruncatedTexts(texts), depth)
  {
    forall i | 0 <= i < |texts| ensures Clean(secret, TruncatedTexts(texts)[i], depth) {
      TruncateFixed(texts[i]);
    }
  }

  lemma ListCleanUnlessDeepSlice(secret: string -> bool, items: seq<Json>, depth: nat)
    ensures CleanItems(secret, SanitizedItems(secret, items, depth), depth) <==> !DeepSliceAmong(secret, items, depth)
    decreases if depth < MAX_DEPTH then MAX_DEPTH - depth else 0, 2
  {
    var r := SanitizedItems(secret, items, depth);
    ItemsAreSanitized(secret, items, depth);
    forall i | 0 <= i < |items| ensures Clean(secret, r[i], depth) <==> !DeepSlice(secret, items[i], depth) {
      CleanUnlessDeepSlice(secret, items[i], depth);
    }
    if DeepSliceAmong(secret, items, depth) {
      var i :| 0 <= i < |items| && DeepSlice(secret, items[i], depth);
      assert !Clean(secret, r[i], depth);
    }
  }

  lemma MapCleanUnlessDeepSlice(secret: string -> bool, m: map<string, Json>, depth: nat)
    ensures CleanMap(secret, SanitizedMap(secret, m, depth), depth) <==> !DeepSliceIn(secret, m, depth)
    decreases if depth < MAX_DEPTH then MAX_DEPTH - depth else 0, 2
  {
    var r := SanitizedMap(secret, m, depth);
    SmallestBounded(Harmless(secret, m));
    assert r.Keys == Kept(secret, m) && |r| == |r.Keys|;
    forall k | k in r ensures Clean(secret, r[k], depth) <==> !DeepSlice(secret, m[k], depth) {
      CleanUnlessDeepSlice(secret, m[k], depth);
    }
  }

  /** Sanitising twice is sanitising once, exactly when no typed string slice survives at depth three. */
  lemma IdempotentUnlessDeepSlice(secret: string -> bool, m: map<string, Json>)
    ensures var once := SanitizedEvidence(secret, m);
            SanitizedEvidence(secret, once) == once <==> !DeepSliceIn(secret, m, 1)
  {
    MapCleanUnlessDeepSlice(secret, m, 1);
    MapFixedIffClean(secret, SanitizedEvidence(secret, m), 1);
  }

  /** Such evidence exists under every unmarked key: a typed slice inside two maps. */
  lemma NestedSliceIsDeep(secret: string -> bool, k: string, texts: seq<string>)
    requires !secret(k)
    ensures var m := map[k := Object(map[k := Object(map[k := Strings(texts)])])];
            && DeepSliceIn(secret, m, 1)
            && SanitizedEvidence(secret, SanitizedEvidence(secret, m)) != SanitizedEvidence(secret, m)
  {
    var inner := map[k := Strings(texts)];
    var middle := map[k := Object(inner)];
    var m := map[k := Object(middle)];
    assert k in inner && k in middle && k in m;
    KeptIsAll(secret, inner);
    KeptIsAll(secret, middle);
    KeptIsAll(secret, m);
    assert DeepSlice(secret, inner[k], 3);
    assert DeepSlice(secret, middle[k], 2);
    assert DeepSlice(secret, m[k], 1);
    IdempotentUnlessDeepSlice(secret, m);
  }

  /** Decoded JSON has no typed slices, so it is safe. */
  predicate JsonShaped(v: Json)
    decreases v
  {
    match v
    case Strings(_) => false
    case Object(fields) => forall k :: k in fields ==> JsonShaped(fields[k])
    case List(items) => forall i :: 0 <= i < |items| ==> JsonShaped(items[i])
    case _ => true
  }

  lemma {:induction false} JsonHasNoDeepSlice(secret: string -> bool, v: Json, depth: nat)
    requires JsonShaped(v)
    ensures !DeepSlice(secret, v, depth)
    decreases v
  {
    match v
    case Object(fields) =>
      SmallestBounded(Harmless(secret, fields));
      forall k | k in Kept(secret, fields) ensures !DeepSlice(secret, fields[k], depth + 1) {
        JsonHasNoDeepSlice(secret, fields[k], depth + 1);
      }
    case List(items) =>
      forall i | 0 <= i < |FirstItems(items)| ensures !DeepSlice(secret, FirstItems(items)[i], depth + 1) {
        JsonHasNoDeepSlice(secret, items[i], depth + 1);
      }
    case _ =>
  }

  // ----- bounds -----

  /** Scalars and strings reachable in a value. */
  ghost function Leaves(v: Json): nat
    decreases v, 2
  {
    match v
    case Object(fields) => LeavesIn(fields, fields.Keys, v)
    case List(items) => LeavesOf(items, v)
    case Strings(texts) => |texts|
    case _ => 1
  }

  ghost function LeavesIn(m: map<string, Json>, keys: set<string>, v: Json): nat
    requires v.Object? && m == v.fields && keys <= m.Keys
    decreases v, 1, keys
  {
    if keys == {} then 0
    else
      var k :| k in keys;
      Leaves(m[k]) + LeavesIn(m, keys - {k}, v)
  }

  ghost function LeavesOf(items: seq<Json>, v: Json): nat
    requires v.List? && items <= v.items
    decreases v, 1, |items|
  {
    if items == [] then 0
    else
      assert items[|items| - 1] == v.items[|items| - 1];
      Leaves(items[|items| - 1]) + LeavesOf(items[..|items| - 1], v)
  }

  /** The most leaves a clean value can hold at a depth. */
  function Capacity(depth: nat): nat
    decreases if depth < MAX_DEPTH then MAX_DEPTH - depth else 0
  {
    if depth >= MAX_DEPTH then 1 else MAX_KEYS * Capacity(depth + 1)
  }

  lemma {:induction false} CapacityPositive(depth: nat)
    ensures 1 <= Capacity(depth)
    decreases if depth < MAX_DEPTH then MAX_DEPTH - depth else 0
  {
    if MAX_DEPTH <= depth {
    } else {
      CapacityPositive(depth + 1);
    }
  }

  lemma {:induction false} CleanIsSmall(secret: string -> bool, v: Json, depth: nat)
    requires Clean(secret, v, depth)
    ensures Leaves(v) <= Capacity(depth)
    decreases v, 2
  {
    CapacityPositive(depth);
    match v
    case Object(fields) =>
      ObjectIsSmall(secret, v, fields.Keys, depth + 1);
      assert |fields| == |fields.Keys|;
      MulBound(|fields.Keys|, MAX_KEYS, Capacity(depth + 1));
    case List(items) =>
      ListIsSmall(secret, v, items, depth + 1);
      MulBound(|items|, MAX_KEYS, Capacity(depth + 1));
    case _ =>
  }

  lemma MulBound(a: nat, b: nat, c: nat)
    requires a <= b
    ensures a * c <= b * c
  {
  }

  lemma {:induction false} ObjectIsSmall(secret: string -> bool, v: Json, keys: set<string>, depth: nat)
    requires v.Object? && CleanMap(secret, v.fields, depth) && keys <= v.fields.Keys
    ensures LeavesIn(v.fields, keys, v) <= |keys| * Capacity(depth)
    decreases v, 1, keys
  {
    if keys == {} {
    } else {
      var k :| k in keys && LeavesIn(v.fields, keys, v) == Leaves(v.fields[k]) + LeavesIn(v.fields, keys - {k}, v);
      CleanIsSmall(secret, v.fields[k], depth);
      ObjectIsSmall(secret, v, keys - {k}, depth);
      assert |keys - {k}| == |keys| - 1;
      assert |keys| * Capacity(depth) == (|keys| - 1) * Capacity(depth) + Capacity(depth);
    }
  }

  lemma {:induction false} ListIsSmall(secret: string -> bool, v: Json, items: seq<Json>, depth: nat)
    requires v.List? && items <= v.items && CleanItems(secret, v.items, depth)
    ensures LeavesOf(items, v) <= |items| * Capacity(depth)
    decreases v, 1, |items|
  {
    if items == [] {
    } else {
      var n := |items| - 1;
      assert items[n] == v.items[n];
      CleanIsSmall(secret, items[n], depth);
      ListIsSmall(secret, v, items[..n], depth);
      assert |items| * Capacity(depth) == n * Capacity(depth) + Capacity(depth);
    }
  }

  /** JSON evidence comes out within every limit: at most 24 keys per map, 12 items per list, 401
      runes per string, three container levels, 24^3 leaves in all, and no marked key anywhere;
      and a second pass changes nothing. */
  lemma JsonEvidenceIsBounded(secret: string -> bool, m: map<string, Json>)
    requires JsonShaped(Object(m))
    ensures var out := SanitizedEvidence(secret, m);
            && CleanMap(secret, out, 1)
            && SanitizedEvidence(secret, out) == out
            && Leaves(Object(out)) <= 24 * 24 * 24
  {
    var out := SanitizedEvidence(secret, m);
    JsonHasNoDeepSlice(secret, Object(m), 0);
    MapCleanUnlessDeepSlice(secret, m, 1);
    IdempotentUnlessDeepSlice(secret, m);
    assert Clean(secret, Object(out), 0);
    CleanIsSmall(secret, Object(out), 0);
    assert Capacity(3) == 1 && Capacity(2) == 24 && Capacity(1) == 24 * 24 && Capacity(0) == 24 * 24 * 24;
  }

  // ----- no marked key survives, whatever the shape -----

  predicate NoMarkedKeys(secret: string -> bool, v: Json)
    decreases v
  {
    match v
    case Object(fields) => forall k :: k in fields ==> !secret(k) && NoMarkedKeys(secret, fields[k])
    case List(items) => forall i :: 0 <= i < |items| ==> NoMarkedKeys(secret, items[i])
    case _ => true
  }

  /** For every value, typed slices included. */
  lemma {:induction false} SecretsAreDropped(secret: string -> bool, v: Json, depth: nat)
    ensures NoMarkedKeys(secret, Sanitized(secret, v, depth))
    decreases if depth < MAX_DEPTH then MAX_DEPTH - depth else 0, 1
  {
    match v
    case Object(fields) => ObjectSecretsDropped(secret, fields, depth);
    case List(items) => ListSecretsDropped(secret, items, depth);
    case Strings(texts) =>
      StringsUnfold(secret, texts, depth);
      TextsHaveNoKeys(secret, FirstItems(texts));
    case _ =>
  }

  lemma ObjectSecretsDropped(secret: string -> bool, fields: map<string, Json>, depth: nat)
    ensures NoMarkedKeys(secret, Sanitized(secret, Object(fields), depth))
    decreases if depth < MAX_DEPTH then MAX_DEPTH - depth else 0, 0
  {
    var inner := if depth < MAX_DEPTH then Object(SanitizedMap(secret, fields, depth + 1)) else OMITTED;
    if depth < MAX_DEPTH { SecretsDroppedFromMap(secret, fields, depth + 1); }
    SanitizedObject(secret, fields, depth);
    SameValueSameKeys(secret, inner, Sanitized(secret, Object(fields), depth));
  }

  lemma SameValueSameKeys(secret: string -> bool, v: Json, w: Json)
    requires v == w && NoMarkedKeys(secret, v)
    ensures NoMarkedKeys(secret, w)
  {
  }

  lemma ListSecretsDropped(secret: string -> bool, items: seq<Json>, depth: nat)
    ensures NoMarkedKeys(secret, Sanitized(secret, List(items), depth))
    decreases if depth < MAX_DEPTH then MAX_DEPTH - depth else 0, 0
  {
    SanitizedList(secret, items, depth);
    if depth < MAX_DEPTH { SecretsDroppedFromList(secret, FirstItems(items), depth + 1); }
  }

  lemma TextsHaveNoKeys(secret: string -> bool, texts: seq<string>)
    ensures NoMarkedKeys(secret, List(TruncatedTexts(texts)))
  {
  }

  lemma SecretsDroppedFromMap(secret: string -> bool, m: map<string, Json>, depth: nat)
    ensures NoMarkedKeys(secret, Object(SanitizedMap(secret, m, depth)))
    decreases if depth < MAX_DEPTH then MAX_DEPTH - depth else 0, 2
  {
    SmallestBounded(Harmless(secret, m));
    var r := SanitizedMap(secret, m, depth);
    forall k | k in r ensures !secret(k) && NoMarkedKeys(secret, r[k]) {
      SecretsAreDropped(secret, m[k], depth);
    }
  }

  lemma SecretsDroppedFromList(secret: string -> bool, items: seq<Json>, depth: nat)
    ensures NoMarkedKeys(secret, List(SanitizedItems(secret, items, depth)))
    decreases if depth < MAX_DEPTH then MAX_DEPTH - depth else 0, 2
  {
    var r := SanitizedItems(secret, items, depth);
    ItemsAreSanitized(secret, items, depth);
    forall i | 0 <= i < |r| ensures NoMarkedKeys(secret, r[i]) {
      SecretsAreDropped(secret, items[i], depth);
    }
  }
}
