/** The loops of internal/aiclient/evidence.go, each proved to compute the transformation. */
module SanitizerLoops {
  import opened Core
  import opened Seqs
  import opened Sanitizer

  ghost predicate Increasing(s: seq<string>) {
    forall i, j :: 0 <= i < j < |s| ==> StrLess(s[i], s[j])
  }

  lemma InsertedIncreasing(s: seq<string>, k: string, j: nat)
    requires Increasing(s) && j <= |s| && k !in s
    requires forall i :: j <= i < |s| ==> StrLess(k, s[i])
    requires j > 0 ==> !StrLess(k, s[j - 1])
    ensures Increasing(s[..j] + [k] + s[j..])
  {
    var t := s[..j] + [k] + s[j..];
    if j > 0 {
      StrLessTotal(k, s[j - 1]);
      assert StrLess(s[j - 1], k);
    }
    forall u, v | 0 <= u < v < |t| ensures StrLess(t[u], t[v]) {
      var a, b := if u < j then u else u - 1, if v < j then v else v - 1;
      assert u != j ==> t[u] == s[a];
      assert v != j ==> t[v] == s[b];
      if v == j && u < j - 1 {
        StrLessTransitive(s[u], s[j - 1], k);
      }
    }
  }

  /** sort.Strings on distinct keys. */
  method SortStrings(keys: seq<string>) returns (sorted: seq<string>)
    requires NoDuplicates(keys)
    ensures Increasing(sorted) && forall k :: k in sorted <==> k in keys
  {
    sorted := [];
    for i := 0 to |keys|
      invariant Increasing(sorted) && forall k :: k in sorted <==> k in keys[..i]
    {
      var k := keys[i];
      assert k !in keys[..i];
      assert keys[..i + 1] == keys[..i] + [k];
      var j := |sorted|;
      while j > 0 && StrLess(k, sorted[j - 1])
        invariant 0 <= j <= |sorted|
        invariant forall u :: j <= u < |sorted| ==> StrLess(k, sorted[u])
      {
        j := j - 1;
      }
      InsertedIncreasing(sorted, k, j);
      assert sorted == sorted[..j] + sorted[j..];
      sorted := sorted[..j] + [k] + sorted[j..];
    }
    assert keys[..|keys|] == keys;
  }

  lemma {:induction false} IncreasingSize(s: seq<string>)
    requires Increasing(s)
    ensures |set k | k in s| == |s|
  {
    if s == [] {
    } else {
      var init, last := s[..|s| - 1], s[|s| - 1];
      IncreasingSize(init);
      assert (set k | k in s) == (set k | k in init) + {last};
      if last in init {
        var i :| 0 <= i < |init| && init[i] == last;
        StrLessTotal(s[i], s[|s| - 1]);
      }
    }
  }

  /** In a sorted list, as many keys sort before an element as its index says. */
  lemma RankIsIndex(s: seq<string>, keys: set<string>, i: nat)
    requires Increasing(s) && i < |s| && keys == set k | k in s
    ensures |Below(keys, s[i])| == i
  {
    assert Increasing(s[..i]);
    IncreasingSize(s[..i]);
    forall k ensures k in Below(keys, s[i]) <==> k in s[..i] {
      if k in keys {
        var j :| 0 <= j < |s| && s[j] == k;
        StrLessTotal(s[i], s[j]);
        assert j < i ==> s[..i][j] == k;
      }
    }
    assert Below(keys, s[i]) == set k | k in s[..i];
  }

  function Head(s: seq<string>): seq<string> { if |s| > MAX_KEYS then s[..MAX_KEYS] else s }

  /** Truncating the sorted keys selects exactly the smallest ones. */
  lemma HeadIsSmallest(s: seq<string>, keys: set<string>)
    requires Increasing(s) && keys == set k | k in s
    ensures (set k | k in Head(s)) == Smallest(keys)
  {
    forall k ensures k in Head(s) <==> k in Smallest(keys) {
      if k in keys {
        var i :| 0 <= i < |s| && s[i] == k;
        RankIsIndex(s, keys, i);
        if k in Head(s) {
          var j :| 0 <= j < |Head(s)| && Head(s)[j] == k;
          StrLessTotal(s[i], s[j]);
          assert i == j;
        }
        if i < MAX_KEYS { assert Head(s)[i] == k; }
      }
    }
  }

  /** The keys of a map that are not marked, each once, in any order. */
  method HarmlessKeys(secret: string -> bool, m: map<string, Json>) returns (keys: seq<string>)
    ensures NoDuplicates(keys) && (set k | k in keys) == Harmless(secret, m)
  {
    keys := [];
    var todo := m.Keys;
    while todo != {}
      invariant todo <= m.Keys && NoDuplicates(keys)
      invariant forall k :: k in keys <==> k in m && k !in todo && !secret(k)
      decreases todo
    {
      var k :| k in todo;
      todo := todo - {k};
      if !secret(k) { keys := keys + [k]; }
    }
  }

  method SanitizeMap(secret: string -> bool, m: map<string, Json>, depth: nat) returns (out: map<string, Json>)
    ensures out == SanitizedMap(secret, m, depth)
    decreases if depth < MAX_DEPTH then MAX_DEPTH - depth else 0, 1
  {
    var collected := HarmlessKeys(secret, m);
    var sorted := SortStrings(collected);
    HeadIsSmallest(sorted, Harmless(secret, m));
    var keys := Head(sorted);
    out := map[];
    for i := 0 to |keys|
      invariant forall k :: k in out <==> k in keys[..i]
      invariant forall k :: k in out ==> k in m && out[k] == Sanitized(secret, m[k], depth)
    {
      assert keys[i] in Kept(secret, m);
      assert keys[..i + 1] == keys[..i] + [keys[i]];
      var v := SanitizeValue(secret, m[keys[i]], depth);
      out := out[keys[i] := v];
    }
    assert keys[..|keys|] == keys;
    assert out.Keys == Kept(secret, m);
  }

  method SanitizeValue(secret: string -> bool, v: Json, depth: nat) returns (out: Json)
    ensures out == Sanitized(secret, v, depth)
    decreases if depth < MAX_DEPTH then MAX_DEPTH - depth else 0, 0
  {
    match v
    case Text(s) => out := Text(TruncateRunes(s, MAX_STRING));
    case Object(fields) =>
      if depth >= MAX_DEPTH { return OMITTED; }
      var r := SanitizeMap(secret, fields, depth + 1);
      out := Object(r);
    case List(items) =>
      if depth >= MAX_DEPTH { return OMITTED; }
      var r := SanitizeItems(secret, FirstItems(items), depth + 1);
      out := List(r);
    case Strings(texts) =>
      var r := TruncateTexts(FirstItems(texts));
      out := List(r);
    case _ => out := v;
  }

  method SanitizeItems(secret: string -> bool, items: seq<Json>, depth: nat) returns (r: seq<Json>)
    ensures r == SanitizedItems(secret, items, depth)
    decreases if depth < MAX_DEPTH then MAX_DEPTH - depth else 0, 1
  {
    r := [];
    for i := 0 to |items|
      invariant |r| == i && forall j :: 0 <= j < i ==> r[j] == Sanitized(secret, items[j], depth)
    {
      var v := SanitizeValue(secret, items[i], depth);
      r := r + [v];
    }
    ItemsAreSanitized(secret, items, depth);
  }

  method TruncateTexts(texts: seq<string>) returns (r: seq<Json>)
    ensures r == TruncatedTexts(texts)
  {
    r := [];
    for i := 0 to |texts|
      invariant |r| == i && forall j :: 0 <= j < i ==> r[j] == Text(TruncateRunes(texts[j], MAX_STRING))
    {
      r := r + [Text(TruncateRunes(texts[i], MAX_STRING))];
    }
  }

  /** SanitizeEvidence on the product's own list of markers. */
  method SanitizeEvidence(lower: string -> string, m: map<string, Json>) returns (out: map<string, Json>)
    ensures out == SanitizedEvidence(SecretFn(lower), m)
    ensures NoMarkedKeys(SecretFn(lower), Object(out))
    ensures |out| <= MAX_KEYS
  {
    out := SanitizeMap(SecretFn(lower), m, 1);
    SecretsDroppedFromMap(SecretFn(lower), m, 1);
    SmallestBounded(Harmless(SecretFn(lower), m));
    assert out.Keys == Kept(SecretFn(lower), m) && |out| == |out.Keys|;
  }
}
