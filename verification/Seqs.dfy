/** Sequence facts used across the model: filtering, and lexicographic order. */
module Seqs {
  import opened Core

  /** The images of the elements on which `f` is defined, in order. */
  function Collect<T, R>(s: seq<T>, f: T -> Option<R>): seq<R> {
    if s == [] then []
    else
      var rest := Collect(s[..|s| - 1], f);
      match f(s[|s| - 1])
      case None => rest
      case Some(r) => rest + [r]
  }

  lemma {:induction false} CollectConcat<T, R>(s: seq<T>, t: seq<T>, f: T -> Option<R>)
    ensures Collect(s + t, f) == Collect(s, f) + Collect(t, f)
  {
    if t == [] {
      assert s + t == s;
    } else {
      var t' := t[..|t| - 1];
      assert (s + t)[..|s + t| - 1] == s + t';
      CollectConcat(s, t', f);
    }
  }

  lemma {:induction false} CollectMember<T, R(!new)>(s: seq<T>, f: T -> Option<R>)
    ensures forall r :: r in Collect(s, f) <==> exists x :: x in s && f(x) == Some(r)
  {
    if s == [] {
    } else {
      var s', x := s[..|s| - 1], s[|s| - 1];
      CollectMember(s', f);
      assert s == s' + [x];
      forall r ensures r in Collect(s, f) <==> exists x :: x in s && f(x) == Some(r) {
        if f(x) == Some(r) { assert x in s; }
        if r in Collect(s', f) { var y :| y in s' && f(y) == Some(r); assert y in s; }
      }
    }
  }

  lemma RemoveFromPermutation<T>(s: seq<T>, x: T, a: seq<T>, b: seq<T>)
    requires multiset(s + [x]) == multiset(a + ([x] + b))
    ensures multiset(s) == multiset(a + b)
  {
    assert multiset(s) == multiset(s + [x]) - multiset{x};
    assert multiset(a + b) == multiset(a + ([x] + b)) - multiset{x};
  }

  lemma CollectExtracted<T, R>(a: seq<T>, x: T, b: seq<T>, f: T -> Option<R>)
    ensures multiset(Collect(a + ([x] + b), f)) == multiset(Collect(a + b, f)) + multiset(Collect([x], f))
  {
    CollectConcat(a, b, f);
    CollectConcat([x], b, f);
    CollectConcat(a, [x] + b, f);
    MoveOut(Collect(a, f), Collect([x], f), Collect(b, f));
  }

  lemma MoveOut<R>(a: seq<R>, x: seq<R>, b: seq<R>)
    ensures multiset(a + (x + b)) == multiset(a + b) + multiset(x)
  {
  }

  /** Collecting from a permutation yields a permutation. */
  lemma {:induction false} CollectPermutation<T, R>(s: seq<T>, t: seq<T>, f: T -> Option<R>)
    requires multiset(s) == multiset(t)
    ensures multiset(Collect(s, f)) == multiset(Collect(t, f))
    decreases |s|
  {
    assert |s| == |multiset(s)| == |multiset(t)| == |t|;
    if s == [] {
    } else {
      var s', x := s[..|s| - 1], s[|s| - 1];
      assert s == s' + [x];
      assert x in multiset(t);
      var i :| 0 <= i < |t| && t[i] == x;
      var a, b := t[..i], t[i + 1..];
      assert t == a + ([x] + b);
      RemoveFromPermutation(s', x, a, b);
      CollectPermutation(s', a + b, f);
      CollectExtracted(a, x, b, f);
      CollectConcat(s', [x], f);
    }
  }

  lemma CollectNext<T, R>(s: seq<T>, f: T -> Option<R>, i: nat)
    requires i < |s|
    ensures Collect(s[..i + 1], f)
         == match f(s[i]) case None => Collect(s[..i], f) case Some(r) => Collect(s[..i], f) + [r]
  {
    assert s[..i + 1][..i] == s[..i];
  }

  /** The last element with a given key. */
  function Find<T, K(==)>(s: seq<T>, key: T -> Option<K>, k: K): Option<T> {
    if s == [] then None
    else if key(s[|s| - 1]) == Some(k) then Some(s[|s| - 1])
    else Find(s[..|s| - 1], key, k)
  }

  lemma {:induction false} FindMember<T, K>(s: seq<T>, key: T -> Option<K>, k: K)
    ensures var r := Find(s, key, k);
            && (r.Some? ==> r.value in s && key(r.value) == Some(k))
            && (r.None? ==> forall x :: x in s ==> key(x) != Some(k))
  {
    if s == [] {
    } else {
      FindMember(s[..|s| - 1], key, k);
      assert s == s[..|s| - 1] + [s[|s| - 1]];
    }
  }

  lemma DistinctPrefix<T, K(!new)>(s: seq<T>, key: T -> Option<K>)
    requires s != [] && NoDuplicates(Collect(s, key))
    ensures NoDuplicates(Collect(s[..|s| - 1], key))
    ensures forall x :: x in s[..|s| - 1] && key(x).Some? ==> key(x) != key(s[|s| - 1])
  {
    var init, last := s[..|s| - 1], s[|s| - 1];
    var ks := Collect(init, key);
    assert forall u :: 0 <= u < |ks| ==> ks[u] == Collect(s, key)[u];
    CollectMember(init, key);
    if key(last).Some? {
      assert Collect(s, key)[|ks|] == key(last).value;
      assert key(last).value !in ks;
    }
  }

  /** With distinct keys, every element is the one its key finds. */
  lemma {:induction false} FindUnique<T, K(!new)>(s: seq<T>, key: T -> Option<K>, x: T)
    requires NoDuplicates(Collect(s, key)) && x in s && key(x).Some?
    ensures Find(s, key, key(x).value) == Some(x)
  {
    DistinctPrefix(s, key);
    if x == s[|s| - 1] {
    } else {
      assert s == s[..|s| - 1] + [s[|s| - 1]];
      assert x in s[..|s| - 1];
      FindUnique(s[..|s| - 1], key, x);
    }
  }

  /** If only the element with key `k` contributes, collecting yields its image alone. */
  lemma {:induction false} CollectSingle<T, K(!new), E>(s: seq<T>, key: T -> Option<K>, k: K, f: T -> Option<E>)
    requires NoDuplicates(Collect(s, key))
    requires forall x :: x in s && f(x).Some? ==> key(x) == Some(k)
    ensures Collect(s, f)
         == match Find(s, key, k)
            case None => []
            case Some(x) => match f(x) case None => [] case Some(e) => [e]
  {
    if s == [] {
    } else {
      var init, last := s[..|s| - 1], s[|s| - 1];
      DistinctPrefix(s, key);
      assert forall x :: x in init ==> x in s;
      CollectSingle(init, key, k, f);
      FindMember(init, key, k);
      assert last in s;
    }
  }

  function Chain<T, R, E>(f: T -> Option<R>, g: R -> Option<E>): T -> Option<E> {
    (x: T) => match f(x) case None => None case Some(r) => g(r)
  }

  lemma {:induction false} CollectChain<T, R, E>(s: seq<T>, f: T -> Option<R>, g: R -> Option<E>)
    ensures Collect(Collect(s, f), g) == Collect(s, Chain(f, g))
  {
    if s == [] {
    } else {
      CollectChain(s[..|s| - 1], f, g);
    }
  }

  lemma {:induction false} CollectCongruent<T, R>(s: seq<T>, f: T -> Option<R>, g: T -> Option<R>)
    requires forall x :: x in s ==> f(x) == g(x)
    ensures Collect(s, f) == Collect(s, g)
  {
    if s == [] {
    } else {
      CollectCongruent(s[..|s| - 1], f, g);
    }
  }

  ghost predicate NoDuplicates<T>(s: seq<T>) {
    forall i, j :: 0 <= i < j < |s| ==> s[i] != s[j]
  }

  ghost predicate ImagesDiffer<T, R>(s: seq<T>, f: T -> Option<R>) {
    forall i, j :: 0 <= i < j < |s| && f(s[i]).Some? ==> f(s[i]) != f(s[j])
  }

  /** What is collected is free of duplicates iff no two positions contribute the same. */
  lemma {:induction false} CollectDistinct<T, R(!new)>(s: seq<T>, f: T -> Option<R>)
    ensures NoDuplicates(Collect(s, f)) <==> ImagesDiffer(s, f)
  {
    if s == [] {
    } else {
      var init, last := s[..|s| - 1], s[|s| - 1];
      CollectDistinct(init, f);
      CollectMember(init, f);
      if NoDuplicates(Collect(s, f)) {
        DistinctPrefix(s, f);
        assert forall i :: 0 <= i < |init| ==> s[i] in init;
        assert ImagesDiffer(s, f);
      }
      if ImagesDiffer(s, f) {
        assert ImagesDiffer(init, f) by { assert forall i :: 0 <= i < |init| ==> init[i] == s[i]; }
        forall x | x in init && f(x).Some? ensures f(x) != f(last) {
          var i :| 0 <= i < |init| && init[i] == x;
          assert f(s[i]) != f(s[|s| - 1]);
        }
      }
    }
  }

  /** Collecting less keeps freedom from duplicates. */
  lemma CollectFewer<T, R(!new)>(s: seq<T>, f: T -> Option<R>, g: T -> Option<R>)
    requires NoDuplicates(Collect(s, g)) && forall x :: x in s && f(x).Some? ==> f(x) == g(x)
    ensures NoDuplicates(Collect(s, f))
  {
    CollectDistinct(s, f);
    CollectDistinct(s, g);
    forall i, j | 0 <= i < j < |s| && f(s[i]).Some? ensures f(s[i]) != f(s[j]) {
      assert g(s[i]) != g(s[j]);
    }
  }

  lemma CollectedAt<T, R(!new)>(s: seq<T>, f: T -> Option<R>, x: T) returns (p: nat)
    requires x in s && f(x).Some?
    ensures p < |Collect(s, f)| && Collect(s, f)[p] == f(x).value
  {
    CollectMember(s, f);
    p :| 0 <= p < |Collect(s, f)| && Collect(s, f)[p] == f(x).value;
  }

  /** Two contributions stand in the order of their sources. */
  lemma CollectPair<T, R(!new)>(s: seq<T>, f: T -> Option<R>, i: nat, j: nat) returns (p: nat, q: nat)
    requires i < j < |s| && f(s[i]).Some? && f(s[j]).Some?
    ensures p < q < |Collect(s, f)|
    ensures Collect(s, f)[p] == f(s[i]).value && Collect(s, f)[q] == f(s[j]).value
  {
    var a, b := s[..j], s[j..];
    assert s == a + b && s[i] in a && s[j] in b;
    CollectConcat(a, b, f);
    p := CollectedAt(a, f, s[i]);
    q := CollectedAt(b, f, s[j]);
    q := |Collect(a, f)| + q;
  }

  lemma {:induction false} CollectNothing<T, R>(s: seq<T>, f: T -> Option<R>)
    requires forall x :: x in s ==> f(x).None?
    ensures Collect(s, f) == []
  {
    if s == [] {
    } else {
      assert s[|s| - 1] in s;
      CollectNothing(s[..|s| - 1], f);
    }
  }

  /** If the elements with a property contribute one value and the others nothing, the property is counted. */
  lemma {:induction false} CollectCounts<T, R>(s: seq<T>, p: T -> bool, f: T -> Option<R>, r: R)
    requires forall x :: x in s ==> f(x) == if p(x) then Some(r) else None
    ensures Collect(s, f) == seq(|Filter(s, p)|, _ => r)
  {
    if s == [] {
    } else {
      var init := s[..|s| - 1];
      assert s[|s| - 1] in s && forall x :: x in init ==> x in s;
      CollectCounts(init, p, f, r);
    }
  }

  /** Being free of duplicates depends on the multiset only. */
  lemma {:induction false} NoDuplicatesCount<T(!new)>(s: seq<T>)
    ensures NoDuplicates(s) <==> forall x :: multiset(s)[x] <= 1
  {
    if s == [] {
    } else {
      var s', x := s[..|s| - 1], s[|s| - 1];
      NoDuplicatesCount(s');
      assert s == s' + [x];
      assert multiset(s) == multiset(s') + multiset{x};
      if NoDuplicates(s) {
        assert x !in s' && NoDuplicates(s');
        assert x !in multiset(s');
      }
      if forall y :: multiset(s)[y] <= 1 {
        assert forall y :: multiset(s')[y] <= multiset(s)[y];
        assert multiset(s')[x] == 0;
        assert x !in s';
      }
    }
  }

  lemma SameMembersSameMultiset<T(!new)>(s: seq<T>, t: seq<T>)
    requires NoDuplicates(s) && NoDuplicates(t) && forall x :: x in s <==> x in t
    ensures multiset(s) == multiset(t)
  {
    NoDuplicatesCount(s);
    NoDuplicatesCount(t);
    forall x ensures multiset(s)[x] == multiset(t)[x] {
      assert x in s <==> x in multiset(s);
      assert x in t <==> x in multiset(t);
    }
  }

  function Filter<T>(s: seq<T>, p: T -> bool): seq<T> {
    if s == [] then []
    else if p(s[|s| - 1]) then Filter(s[..|s| - 1], p) + [s[|s| - 1]]
    else Filter(s[..|s| - 1], p)
  }

  /** Dropping elements that contribute nothing changes nothing. */
  lemma {:induction false} CollectFiltered<T, R>(s: seq<T>, p: T -> bool, f: T -> Option<R>)
    requires forall x :: x in s && !p(x) ==> f(x).None?
    ensures Collect(Filter(s, p), f) == Collect(s, f)
  {
    if s == [] {
    } else {
      var init, x := s[..|s| - 1], s[|s| - 1];
      assert forall y :: y in init ==> y in s;
      assert x in s;
      CollectFiltered(init, p, f);
      if p(x) { CollectConcat(Filter(init, p), [x], f); CollectConcat(init, [x], f); assert s == init + [x]; }
    }
  }

  lemma {:induction false} FilterConcat<T>(s: seq<T>, t: seq<T>, p: T -> bool)
    ensures Filter(s + t, p) == Filter(s, p) + Filter(t, p)
  {
    if t == [] {
      assert s + t == s;
    } else {
      assert (s + t)[..|s + t| - 1] == s + t[..|t| - 1];
      FilterConcat(s, t[..|t| - 1], p);
    }
  }

  /** Filtering keeps the multiplicity of what passes and drops the rest. */
  lemma {:induction false} FilterCount<T(!new)>(s: seq<T>, p: T -> bool)
    ensures forall x :: multiset(Filter(s, p))[x] == if p(x) then multiset(s)[x] else 0
  {
    if s == [] {
    } else {
      FilterCount(s[..|s| - 1], p);
      assert s == s[..|s| - 1] + [s[|s| - 1]];
    }
  }

  /** Joining with a separator that the first parts do not contain loses nothing. */
  lemma JoinInjective(sep: char, m: string, f: string, m': string, f': string)
    requires sep !in m && sep !in m'
    ensures m + [sep] + f == m' + [sep] + f' <==> m == m' && f == f'
  {
    var s, s' := m + [sep] + f, m' + [sep] + f';
    assert s[|m|] == sep && s'[|m'|] == sep;
    assert |m| < |m'| ==> s'[|m|] == m'[|m|];
    assert |m'| < |m| ==> s[|m'|] == m[|m'|];
    assert m == s[..|m|] && m' == s'[..|m'|];
    assert f == s[|m| + 1..] && f' == s'[|m'| + 1..];
  }

  /** Go's `<` on strings: a proper prefix sorts first. */
  predicate StrLess(s: string, t: string) {
    t != [] && (s == [] || s[0] < t[0] || (s[0] == t[0] && StrLess(s[1..], t[1..])))
  }

  lemma {:induction false} StrLessTotal(s: string, t: string)
    ensures StrLess(s, t) || StrLess(t, s) || s == t
    ensures !(StrLess(s, t) && StrLess(t, s))
    ensures s == t ==> !StrLess(s, t)
  {
    if s == [] || t == [] || s[0] != t[0] {
    } else {
      StrLessTotal(s[1..], t[1..]);
      assert s == [s[0]] + s[1..] && t == [t[0]] + t[1..];
    }
  }

  lemma {:induction false} StrLessTransitive(s: string, t: string, u: string)
    requires StrLess(s, t) && StrLess(t, u)
    ensures StrLess(s, u)
  {
    if s == [] || s[0] != t[0] || t[0] != u[0] {
    } else {
      StrLessTransitive(s[1..], t[1..], u[1..]);
    }
  }
}
