/** The digest's order: sortBySeverity in notify/notify.go, an insertion sort by in-place swaps. */
module SeveritySort {
  import opened Core
  import opened Seqs

  function SeverityRank(s: Severity): (r: int)
    ensures 0 <= r <= 4
  {
    match s
    case Critical => 4
    case High => 3
    case Medium => 2
    case Low => 1
    case Info => 0
    case Unlisted(_) => 0
  }

  function RankOf(f: Finding): int { SeverityRank(f.severity) }

  function RankIs(r: int): Finding -> bool {
    (f: Finding) => RankOf(f) == r
  }

  /** The findings of one rank, in arrival order. */
  function ByRank(s: seq<Finding>, r: int): seq<Finding> {
    Filter(s, RankIs(r))
  }

  /** The stable descending sort, defined without sorting: rank by rank, each in arrival order. */
  function BySeverity(s: seq<Finding>): seq<Finding> {
    ByRank(s, 4) + ByRank(s, 3) + ByRank(s, 2) + ByRank(s, 1) + ByRank(s, 0)
  }

  ghost predicate Descending(s: seq<Finding>) {
    forall i, j :: 0 <= i < j < |s| ==> RankOf(s[i]) >= RankOf(s[j])
  }

  lemma ByRankNext(s: seq<Finding>, f: Finding, r: int)
    ensures ByRank(s + [f], r) == if RankOf(f) == r then ByRank(s, r) + [f] else ByRank(s, r)
  {
    assert (s + [f])[..|s|] == s;
  }

  lemma {:induction false} ByRankNone(s: seq<Finding>, r: int)
    requires forall f :: f in s ==> RankOf(f) != r
    ensures ByRank(s, r) == []
  {
    if s == [] {
    } else {
      ByRankNone(s[..|s| - 1], r);
    }
  }

  /** A descending sequence is its own stable sort: nothing else has the same ranks in this order. */
  lemma {:induction false} DescendingIsSorted(s: seq<Finding>)
    requires Descending(s)
    ensures BySeverity(s) == s
  {
    if s == [] {
    } else {
      var init, f := s[..|s| - 1], s[|s| - 1];
      assert s == init + [f];
      DescendingIsSorted(init);
      forall r: int ensures ByRank(s, r) == if RankOf(f) == r then ByRank(init, r) + [f] else ByRank(init, r) {
        ByRankNext(init, f, r);
      }
      forall r | r < RankOf(f) ensures ByRank(init, r) == [] {
        forall g | g in init ensures RankOf(g) != r {
          var i :| 0 <= i < |init| && init[i] == g;
          assert s[i] == g && s[|s| - 1] == f;
        }
        ByRankNone(init, r);
      }
      AppendToLastBucket(ByRank(init, 4), ByRank(init, 3), ByRank(init, 2), ByRank(init, 1), ByRank(init, 0),
                         [f], RankOf(f));
    }
  }

  /** Appending to a bucket with only empty buckets after it appends to the whole. */
  lemma AppendToLastBucket<T>(a: seq<T>, b: seq<T>, c: seq<T>, d: seq<T>, e: seq<T>, x: seq<T>, r: int)
    requires 0 <= r <= 4
    requires (0 < r ==> e == []) && (1 < r ==> d == []) && (2 < r ==> c == []) && (3 < r ==> b == [])
    ensures (if r == 4 then a + x else a) + (if r == 3 then b + x else b) + (if r == 2 then c + x else c)
            + (if r == 1 then d + x else d) + (if r == 0 then e + x else e)
         == a + b + c + d + e + x
  {
  }

  function Swapped(s: seq<Finding>, j: nat): seq<Finding>
    requires 0 < j < |s|
  {
    s[j - 1 := s[j]][j := s[j - 1]]
  }

  lemma SwapKeepsRanks(s: seq<Finding>, j: nat, r: int)
    requires 0 < j < |s| && RankOf(s[j]) != RankOf(s[j - 1])
    ensures ByRank(Swapped(s, j), r) == ByRank(s, r)
  {
    var a, x, y, b := s[..j - 1], s[j - 1], s[j], s[j + 1..];
    assert s == (a + [x] + [y]) + b && Swapped(s, j) == (a + [y] + [x]) + b;
    FilterConcat(a + [x] + [y], b, RankIs(r));
    FilterConcat(a + [y] + [x], b, RankIs(r));
    ByRankNext(a + [x], y, r);
    ByRankNext(a, x, r);
    ByRankNext(a + [y], x, r);
    ByRankNext(a, y, r);
  }

  /** Swapping neighbours of different rank does not change the stable sort. */
  lemma SwapKeepsSort(s: seq<Finding>, j: nat)
    requires 0 < j < |s| && RankOf(s[j]) != RankOf(s[j - 1])
    ensures BySeverity(Swapped(s, j)) == BySeverity(s)
  {
    SwapKeepsRanks(s, j, 4);
    SwapKeepsRanks(s, j, 3);
    SwapKeepsRanks(s, j, 2);
    SwapKeepsRanks(s, j, 1);
    SwapKeepsRanks(s, j, 0);
  }

  /** The first `i + 1` elements descend but for the one at `j`, which outranks all after it. */
  ghost predicate Sinking(s: seq<Finding>, i: nat, j: nat)
    requires j <= i < |s|
  {
    && (forall p, q :: 0 <= p < q <= i && p != j && q != j ==> RankOf(s[p]) >= RankOf(s[q]))
    && (forall q :: j < q <= i ==> RankOf(s[j]) > RankOf(s[q]))
  }

  lemma SinkOne(s: seq<Finding>, i: nat, j: nat)
    requires 0 < j <= i < |s| && Sinking(s, i, j) && RankOf(s[j]) > RankOf(s[j - 1])
    ensures Sinking(Swapped(s, j), i, j - 1)
  {
    var t := Swapped(s, j);
    forall p, q | 0 <= p < q <= i && p != j - 1 && q != j - 1 ensures RankOf(t[p]) >= RankOf(t[q]) {
      assert t[p] == s[if p == j then j - 1 else p] && t[q] == s[if q == j then j - 1 else q];
    }
  }

  method SwapWithPrevious(fs: array<Finding>, j: nat)
    requires 0 < j < fs.Length
    modifies fs
    ensures fs[..] == Swapped(old(fs[..]), j)
  {
    fs[j], fs[j - 1] := fs[j - 1], fs[j];
  }

  /** The inner loop: swap element `i` left past everything less severe. */
  method SwapIntoPlace(fs: array<Finding>, i: nat)
    requires i < fs.Length && Descending(fs[..i])
    modifies fs
    ensures Descending(fs[..i + 1]) && BySeverity(fs[..]) == BySeverity(old(fs[..]))
  {
    var j := i;
    while j > 0 && RankOf(fs[j]) > RankOf(fs[j - 1])
      invariant 0 <= j <= i && Sinking(fs[..], i, j)
      invariant BySeverity(fs[..]) == BySeverity(old(fs[..]))
    {
      SwapKeepsSort(fs[..], j);
      SinkOne(fs[..], i, j);
      SwapWithPrevious(fs, j);
      j := j - 1;
    }
    SunkDescends(fs[..], i, j);
    assert fs[..][..i + 1] == fs[..i + 1];
  }

  lemma SunkDescends(s: seq<Finding>, i: nat, j: nat)
    requires j <= i < |s| && Sinking(s, i, j) && (j > 0 ==> RankOf(s[j]) <= RankOf(s[j - 1]))
    ensures Descending(s[..i + 1])
  {
    forall p, q | 0 <= p < q <= i ensures RankOf(s[p]) >= RankOf(s[q]) {
      if q == j && p < j - 1 { assert RankOf(s[p]) >= RankOf(s[j - 1]); }
    }
  }

  method SortBySeverity(fs: array<Finding>)
    modifies fs
    ensures fs[..] == BySeverity(old(fs[..]))
  {
    var i := 1;
    while i < fs.Length
      invariant 1 <= i && (i <= fs.Length || fs.Length == 0)
      invariant i <= fs.Length ==> Descending(fs[..i])
      invariant BySeverity(fs[..]) == BySeverity(old(fs[..]))
    {
      SwapIntoPlace(fs, i);
      i := i + 1;
    }
    assert i == fs.Length ==> fs[..i] == fs[..];
    DescendingIsSorted(fs[..]);
  }

  lemma FilterFive<T>(a: seq<T>, b: seq<T>, c: seq<T>, d: seq<T>, e: seq<T>, p: T -> bool)
    ensures Filter(a + b + c + d + e, p)
         == Filter(a, p) + Filter(b, p) + Filter(c, p) + Filter(d, p) + Filter(e, p)
  {
    FilterConcat(a, b, p);
    FilterConcat(a + b, c, p);
    FilterConcat(a + b + c, d, p);
    FilterConcat(a + b + c + d, e, p);
  }

  lemma StableRank(s: seq<Finding>, r: int)
    ensures ByRank(BySeverity(s), r) == ByRank(s, r)
  {
    FilterFive(ByRank(s, 4), ByRank(s, 3), ByRank(s, 2), ByRank(s, 1), ByRank(s, 0), RankIs(r));
    BucketOfBucket(s, 4, r);
    BucketOfBucket(s, 3, r);
    BucketOfBucket(s, 2, r);
    BucketOfBucket(s, 1, r);
    BucketOfBucket(s, 0, r);
    if !(0 <= r <= 4) { ByRankNone(s, r); }
    OneOfFive(ByRank(ByRank(s, 4), r), ByRank(ByRank(s, 3), r), ByRank(ByRank(s, 2), r),
              ByRank(ByRank(s, 1), r), ByRank(ByRank(s, 0), r), ByRank(s, r), r);
  }

  lemma OneOfFive<T>(a: seq<T>, b: seq<T>, c: seq<T>, d: seq<T>, e: seq<T>, x: seq<T>, r: int)
    requires a == (if r == 4 then x else []) && b == (if r == 3 then x else []) && c == (if r == 2 then x else [])
    requires d == (if r == 1 then x else []) && e == (if r == 0 then x else [])
    requires !(0 <= r <= 4) ==> x == []
    ensures a + b + c + d + e == x
  {
  }

  /** What the digest promises its reader: a permutation, most severe first, ties in arrival order. */
  lemma StableSort(s: seq<Finding>)
    ensures multiset(BySeverity(s)) == multiset(s)
    ensures Descending(BySeverity(s))
    ensures forall r: int :: ByRank(BySeverity(s), r) == ByRank(s, r)
  {
    BucketsPartition(s);
    BucketsDescend(s);
    forall r: int ensures ByRank(BySeverity(s), r) == ByRank(s, r) { StableRank(s, r); }
  }

  lemma {:induction false} BucketOfBucket(s: seq<Finding>, q: int, r: int)
    ensures ByRank(ByRank(s, q), r) == if q == r then ByRank(s, r) else []
  {
    if s == [] {
    } else {
      BucketOfBucket(s[..|s| - 1], q, r);
      if RankOf(s[|s| - 1]) == q {
        ByRankNext(ByRank(s[..|s| - 1], q), s[|s| - 1], r);
      }
    }
  }

  lemma {:induction false} BucketsPartition(s: seq<Finding>)
    ensures multiset(BySeverity(s)) == multiset(s)
  {
    forall f ensures multiset(BySeverity(s))[f] == multiset(s)[f] {
      FilterCount(s, RankIs(4));
      FilterCount(s, RankIs(3));
      FilterCount(s, RankIs(2));
      FilterCount(s, RankIs(1));
      FilterCount(s, RankIs(0));
    }
  }

  lemma BucketRank(s: seq<Finding>, r: int)
    ensures forall i :: 0 <= i < |ByRank(s, r)| ==> RankOf(ByRank(s, r)[i]) == r
  {
    FilterCount(s, RankIs(r));
    forall i | 0 <= i < |ByRank(s, r)| ensures RankOf(ByRank(s, r)[i]) == r {
      assert ByRank(s, r)[i] in multiset(ByRank(s, r));
    }
  }

  lemma BucketsDescend(s: seq<Finding>)
    ensures Descending(BySeverity(s))
  {
    BucketRank(s, 4);
    BucketRank(s, 3);
    BucketRank(s, 2);
    BucketRank(s, 1);
    BucketRank(s, 0);
    var a, b, c, d, e := ByRank(s, 4), ByRank(s, 3), ByRank(s, 2), ByRank(s, 1), ByRank(s, 0);
    assert Descending(a + b);
    assert Descending(a + b + c);
    assert Descending(a + b + c + d);
  }
}
