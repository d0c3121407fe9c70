/** The selection kernel as it runs: sort indices, walk six buckets, split the ids. */
module RetentionSelect {
  import opened Text
  import opened RetentionRule

  datatype KeptSet = KeptSet(keep: seq<string>, delete: seq<string>)

  // --- newest-first order of the input indices -----------------------------------------

  /** The sort's comparison, with the input position breaking the ties a stable sort leaves. */
  predicate Before(bs: seq<View>, i: nat, j: nat)
    requires i < |bs| && j < |bs|
  {
    Newer(bs[i], bs[j]) || (bs[i].endTime == bs[j].endTime && bs[i].name == bs[j].name && i < j)
  }

  lemma BeforeIsTotal(bs: seq<View>, i: nat, j: nat)
    requires i < |bs| && j < |bs| && i != j
    ensures Before(bs, i, j) || Before(bs, j, i)
  {
    StrLessTotal(bs[i].name, bs[j].name);
  }

  lemma BeforeIsTransitive(bs: seq<View>, i: nat, j: nat, k: nat)
    requires i < |bs| && j < |bs| && k < |bs| && Before(bs, i, j) && Before(bs, j, k)
    ensures Before(bs, i, k)
  {
    if Newer(bs[i], bs[j]) && Newer(bs[j], bs[k]) {
      NewerIsTransitive(bs[i], bs[j], bs[k]);
    }
  }

  lemma BeforeIsAsymmetric(bs: seq<View>, i: nat, j: nat)
    requires i < |bs| && j < |bs| && Before(bs, i, j)
    ensures !Before(bs, j, i) && i != j
  {
    StrLessIrreflexive(bs[i].name);
    if Newer(bs[i], bs[j]) {
      NewerIsAsymmetric(bs[i], bs[j]);
    }
  }

  ghost predicate Sorted(bs: seq<View>, order: seq<nat>) {
    && (forall p :: 0 <= p < |order| ==> order[p] < |bs|)
    && (forall p, q :: 0 <= p < q < |order| ==> Before(bs, order[p], order[q]))
  }

  /** `order` lists the first `n` indices, newest first. */
  ghost predicate IsOrder(bs: seq<View>, order: seq<nat>, n: nat) {
    Sorted(bs, order) && n <= |bs| && (forall i: nat :: i in order <==> i < n)
  }

  function Insert(bs: seq<View>, order: seq<nat>, x: nat): seq<nat>
    requires x < |bs| && forall p :: 0 <= p < |order| ==> order[p] < |bs|
  {
    if order == [] || Before(bs, x, order[0]) then [x] + order
    else [order[0]] + Insert(bs, order[1..], x)
  }

  /** The indices `0..n` in sorted order. */
  function SortIndices(bs: seq<View>, n: nat): (order: seq<nat>)
    requires n <= |bs|
    ensures IsOrder(bs, order, n)
  {
    if n == 0 then []
    else
      var rest := SortIndices(bs, n - 1);
      InsertSorts(bs, rest, n - 1);
      Insert(bs, rest, n - 1)
  }

  lemma {:induction false} InsertSorts(bs: seq<View>, order: seq<nat>, x: nat)
    requires x < |bs| && x !in order && Sorted(bs, order)
    ensures Sorted(bs, Insert(bs, order, x))
    ensures forall i :: i in Insert(bs, order, x) <==> i == x || i in order
    decreases |order|
  {
    var r := Insert(bs, order, x);
    if order != [] {
      var rest := order[1..];
      assert forall i :: i in order <==> i == order[0] || i in rest;
      BeforeIsTotal(bs, x, order[0]);
      if Before(bs, x, order[0]) {
        forall q | 0 < q < |r| ensures Before(bs, x, r[q]) {
          if q > 1 {
            BeforeIsTransitive(bs, x, order[0], order[q - 1]);
          }
        }
      } else {
        InsertSorts(bs, rest, x);
        var tail := Insert(bs, rest, x);
        forall q | 0 <= q < |tail| ensures Before(bs, order[0], tail[q]) {
          assert tail[q] in tail;
          if tail[q] != x {
            assert tail[q] in rest;
          }
        }
      }
    }
  }

  // --- one bucket ----------------------------------------------------------------------

  ghost function Periods<K(!new)>(sorted: seq<nat>, times: seq<int>, key: int -> K): set<K>
    requires forall p :: 0 <= p < |sorted| ==> sorted[p] < |times|
  {
    set p | 0 <= p < |sorted| :: key(times[sorted[p]])
  }

  /** Position `p` is the first of its period and fewer than `count` periods come before it. */
  ghost predicate OpensPeriod<K(!new)>(sorted: seq<nat>, times: seq<int>, count: nat, key: int -> K, p: nat)
    requires forall q :: 0 <= q < |sorted| ==> sorted[q] < |times|
  {
    && p < |sorted|
    && key(times[sorted[p]]) !in Periods(sorted[..p], times, key)
    && |Periods(sorted[..p], times, key)| < count
  }

  method KeepPerPeriod<K(==, !new)>(
    sorted: seq<nat>, times: seq<int>, count: nat, key: int -> K) returns (kept: seq<nat>)
    requires forall p :: 0 <= p < |sorted| ==> sorted[p] < |times|
    ensures forall x :: x in kept
                        <==> exists p :: 0 <= p < |sorted| && sorted[p] == x
                                         && OpensPeriod(sorted, times, count, key, p)
  {
    kept := [];
    var seen: set<K> := {};
    var p := 0;
    while p < |sorted|
      invariant 0 <= p <= |sorted|
      invariant seen == Periods(sorted[..p], times, key) && |kept| == |seen|
      invariant forall x :: x in kept
                            <==> exists q :: 0 <= q < p && sorted[q] == x && OpensPeriod(sorted, times, count, key, q)
    {
      if |kept| >= count {
        forall q | p <= q < |sorted| ensures !OpensPeriod(sorted, times, count, key, q) {
          assert forall r :: 0 <= r < p ==> sorted[..p][r] == sorted[..q][r];
          assert seen <= Periods(sorted[..q], times, key);
          SubsetCardinality(seen, Periods(sorted[..q], times, key));
        }
        break;
      }
      var k := key(times[sorted[p]]);
      assert sorted[..p + 1] == sorted[..p] + [sorted[p]];
      assert Periods(sorted[..p + 1], times, key) == seen + {k};
      if k !in seen {
        seen := seen + {k};
        kept := kept + [sorted[p]];
      }
      p := p + 1;
    }
  }

  // --- the declarative rule, on positions of an arbitrary input ---------------------------

  /** `i` is the newest entry of its period. */
  ghost predicate LeadsAt<K(!new)>(bs: seq<View>, key: int -> K, i: nat)
    requires i < |bs|
  {
    forall j :: 0 <= j < |bs| && j != i && key(bs[j].endTime) == key(bs[i].endTime) ==> Before(bs, i, j)
  }

  ghost function PeriodsBefore<K(!new)>(bs: seq<View>, key: int -> K, i: nat): set<K>
    requires i < |bs|
  {
    set j | 0 <= j < |bs| && Before(bs, j, i) :: key(bs[j].endTime)
  }

  /** The positions a bucket keeps: newest of their period, fewer than `n` distinct newer periods. */
  ghost function BucketAt<K(!new)>(bs: seq<View>, key: int -> K, n: Option<nat>): set<nat> {
    set i: nat | i < |bs| && n.Some? && LeadsAt(bs, key, i) && |PeriodsBefore(bs, key, i)| < n.value
  }

  ghost function NewerThan(bs: seq<View>, i: nat): set<nat>
    requires i < |bs|
  {
    set j: nat | j < |bs| && Before(bs, j, i)
  }

  /** The positions of rank below `n`. */
  ghost function LatestAt(bs: seq<View>, n: Option<nat>): set<nat> {
    set i: nat | i < |bs| && n.Some? && |NewerThan(bs, i)| < n.value
  }

  ghost function PinnedAt(bs: seq<View>): set<nat> {
    set i: nat | i < |bs| && bs[i].pinned
  }

  ghost function KeptAt(bs: seq<View>, cal: Calendar, p: Policy): set<nat> {
    PinnedAt(bs) + LatestAt(bs, p.latest) + BucketAt(bs, cal.hour, p.hourly) + BucketAt(bs, cal.day, p.daily)
    + BucketAt(bs, cal.week, p.weekly) + BucketAt(bs, cal.month, p.monthly) + BucketAt(bs, cal.year, p.annual)
  }

  ghost function ViewsIn(bs: seq<View>, order: seq<nat>, chosen: set<nat>): seq<View>
    requires forall p :: 0 <= p < |order| ==> order[p] < |bs|
  {
    if order == [] then []
    else
      var last := order[|order| - 1];
      ViewsIn(bs, order[..|order| - 1], chosen) + (if last in chosen then [bs[last]] else [])
  }

  ghost function Names(vs: seq<View>): (r: seq<string>)
    ensures |r| == |vs|
  {
    seq(|vs|, i requires 0 <= i < |vs| => vs[i].name)
  }

  ghost function Others(bs: seq<View>, chosen: set<nat>): set<nat> {
    set i: nat | i < |bs| && i !in chosen
  }

  function Elements(order: seq<nat>): set<nat> { set j | j in order }

  /** What the rule selects, newest first. */
  ghost function Survivors(bs: seq<View>, cal: Calendar, p: Policy): seq<View> {
    ViewsIn(bs, SortIndices(bs, |bs|), KeptAt(bs, cal, p))
  }

  ghost function Losers(bs: seq<View>, cal: Calendar, p: Policy): seq<View> {
    ViewsIn(bs, SortIndices(bs, |bs|), Others(bs, KeptAt(bs, cal, p)))
  }

  // --- the walk refines the rule ----------------------------------------------------------

  lemma PositionOf(bs: seq<View>, order: seq<nat>, i: nat) returns (p: nat)
    requires IsOrder(bs, order, |bs|) && i < |bs|
    ensures p < |order| && order[p] == i
  {
    assert i in order;
    p :| 0 <= p < |order| && order[p] == i;
  }

  lemma PrefixIsBefore(bs: seq<View>, order: seq<nat>, p: nat, j: nat)
    requires IsOrder(bs, order, |bs|) && p < |order| && j < |bs|
    ensures Before(bs, j, order[p]) <==> j in order[..p]
  {
    var q := PositionOf(bs, order, j);
    if q < p {
      assert order[..p][q] == j;
    } else {
      forall r | 0 <= r < p ensures order[..p][r] != j {
        BeforeIsAsymmetric(bs, order[r], order[q]);
      }
      if Before(bs, j, order[p]) {
        BeforeIsAsymmetric(bs, j, order[p]);
      }
    }
  }

  lemma PositionIsRank(bs: seq<View>, order: seq<nat>, p: nat)
    requires IsOrder(bs, order, |bs|) && p < |order|
    ensures |NewerThan(bs, order[p])| == p
  {
    forall j: nat | j < |bs| ensures Before(bs, j, order[p]) <==> j in order[..p] {
      PrefixIsBefore(bs, order, p, j);
    }
    assert NewerThan(bs, order[p]) == Elements(order[..p]);
    forall q, r | 0 <= q < r < |order| ensures order[q] != order[r] {
      BeforeIsAsymmetric(bs, order[q], order[r]);
    }
    PrefixCardinality(order, p);
  }

  lemma {:induction false} PrefixCardinality(order: seq<nat>, p: nat)
    requires p <= |order| && forall q, r :: 0 <= q < r < |order| ==> order[q] != order[r]
    ensures |Elements(order[..p])| == p
  {
    if p > 0 {
      PrefixCardinality(order, p - 1);
      assert order[..p] == order[..p - 1] + [order[p - 1]];
      assert Elements(order[..p]) == Elements(order[..p - 1]) + {order[p - 1]};
    }
  }

  lemma OpensIsBucket<K(!new)>(bs: seq<View>, order: seq<nat>, times: seq<int>, n: nat, key: int -> K, p: nat)
    requires IsOrder(bs, order, |bs|) && p < |order|
    requires |times| == |bs| && forall i :: 0 <= i < |bs| ==> times[i] == bs[i].endTime
    ensures OpensPeriod(order, times, n, key, p) <==> order[p] in BucketAt(bs, key, Some(n))
  {
    var i := order[p];
    forall j: nat | j < |bs| ensures Before(bs, j, i) <==> j in order[..p] {
      PrefixIsBefore(bs, order, p, j);
    }
    PeriodsOfPrefix(bs, order, times, key, p);
    forall j: nat | j < |bs| && j != i ensures Before(bs, i, j) <==> j !in order[..p] {
      BeforeIsTotal(bs, i, j);
      if Before(bs, i, j) {
        BeforeIsAsymmetric(bs, i, j);
      }
    }
    BeforeIsIrreflexive(bs, i);
    if LeadsAt(bs, key, i) {
      assert key(bs[i].endTime) !in PeriodsBefore(bs, key, i);
    } else {
      var j :| 0 <= j < |bs| && j != i && key(bs[j].endTime) == key(bs[i].endTime) && !Before(bs, i, j);
      assert key(bs[j].endTime) in PeriodsBefore(bs, key, i);
    }
  }

  lemma BeforeIsIrreflexive(bs: seq<View>, i: nat)
    requires i < |bs|
    ensures !Before(bs, i, i)
  {
    StrLessIrreflexive(bs[i].name);
  }

  lemma PeriodsOfPrefix<K(!new)>(bs: seq<View>, order: seq<nat>, times: seq<int>, key: int -> K, p: nat)
    requires IsOrder(bs, order, |bs|) && p < |order|
    requires |times| == |bs| && forall i :: 0 <= i < |bs| ==> times[i] == bs[i].endTime
    requires forall j: nat :: j < |bs| ==> (Before(bs, j, order[p]) <==> j in order[..p])
    ensures Periods(order[..p], times, key) == PeriodsBefore(bs, key, order[p])
  {
    forall k | k in PeriodsBefore(bs, key, order[p]) ensures k in Periods(order[..p], times, key) {
      var j: nat :| j < |bs| && Before(bs, j, order[p]) && key(bs[j].endTime) == k;
      var q :| 0 <= q < p && order[..p][q] == j;
      assert key(times[order[..p][q]]) == k;
    }
    forall k | k in Periods(order[..p], times, key) ensures k in PeriodsBefore(bs, key, order[p]) {
      var q :| 0 <= q < p && key(times[order[..p][q]]) == k;
      assert order[..p][q] in order[..p];
    }
  }

  /** One `if let Some(n)` bucket step of the selection. */
  method ExtendBucket<K(==, !new)>(
    bs: seq<View>, order: seq<nat>, times: seq<int>, n: Option<nat>, key: int -> K, keepIdx: set<nat>)
    returns (r: set<nat>)
    requires IsOrder(bs, order, |bs|)
    requires |times| == |bs| && forall i :: 0 <= i < |bs| ==> times[i] == bs[i].endTime
    ensures r == keepIdx + BucketAt(bs, key, n)
  {
    r := keepIdx;
    if n.Some? {
      var kept := KeepPerPeriod(order, times, n.value, key);
      r := keepIdx + Elements(kept);
      forall i: nat ensures i in kept <==> i in BucketAt(bs, key, n) {
        if i < |bs| {
          var p := PositionOf(bs, order, i);
          OpensIsBucket(bs, order, times, n.value, key, p);
          forall q | 0 <= q < |order| && order[q] == i ensures q == p {
            BeforeIsIrreflexive(bs, i);
          }
        }
      }
    }
  }

  /** The whole selection: what survives and what is pruned, both newest first, exactly by the rule. */
  method SelectKept(bs: seq<View>, cal: Calendar, policy: Policy) returns (r: KeptSet)
    ensures r.keep == Names(Survivors(bs, cal, policy))
    ensures r.delete == Names(Losers(bs, cal, policy))
  {
    if bs == [] {
      return KeptSet([], []);
    }
    var times := seq(|bs|, i requires 0 <= i < |bs| => bs[i].endTime);
    var order := SortIndices(bs, |bs|);
    var keepIdx: set<nat> := {};
    if policy.latest.Some? {
      var p := 0;
      while p < |order| && p < policy.latest.value
        invariant 0 <= p <= |order| && p <= policy.latest.value
        invariant keepIdx == Elements(order[..p])
      {
        assert order[..p + 1] == order[..p] + [order[p]];
        keepIdx := keepIdx + {order[p]};
        p := p + 1;
      }
      LatestIsPrefix(bs, order, policy.latest, p);
    }
    assert keepIdx == LatestAt(bs, policy.latest);
    keepIdx := ExtendBucket(bs, order, times, policy.hourly, cal.hour, keepIdx);
    keepIdx := ExtendBucket(bs, order, times, policy.daily, cal.day, keepIdx);
    keepIdx := ExtendBucket(bs, order, times, policy.weekly, cal.week, keepIdx);
    keepIdx := ExtendBucket(bs, order, times, policy.monthly, cal.month, keepIdx);
    keepIdx := ExtendBucket(bs, order, times, policy.annual, cal.year, keepIdx);
    assert keepIdx + PinnedAt(bs) == KeptAt(bs, cal, policy);
    r := SplitIds(bs, order, keepIdx, KeptAt(bs, cal, policy));
  }

  /** The final pass: a pinned entry survives even when no bucket chose it. */
  method SplitIds(bs: seq<View>, order: seq<nat>, keepIdx: set<nat>, ghost kept: set<nat>) returns (r: KeptSet)
    requires forall p :: 0 <= p < |order| ==> order[p] < |bs|
    requires kept == keepIdx + PinnedAt(bs)
    ensures r.keep == Names(ViewsIn(bs, order, kept))
    ensures r.delete == Names(ViewsIn(bs, order, Others(bs, kept)))
  {
    var keep, delete := [], [];
    assert order[..|order|] == order;
    for p := 0 to |order|
      invariant keep == Names(ViewsIn(bs, order[..p], kept))
      invariant delete == Names(ViewsIn(bs, order[..p], Others(bs, kept)))
    {
      var idx := order[p];
      assert order[..p + 1][..p] == order[..p];
      if idx in keepIdx || bs[idx].pinned {
        keep := keep + [bs[idx].name];
      } else {
        delete := delete + [bs[idx].name];
      }
    }
    r := KeptSet(keep, delete);
  }

  lemma LatestIsPrefix(bs: seq<View>, order: seq<nat>, n: Option<nat>, p: nat)
    requires IsOrder(bs, order, |bs|) && n.Some? && p <= |order|
    requires p == |order| <= n.value || p == n.value <= |order|
    ensures LatestAt(bs, n) == Elements(order[..p])
  {
    forall i: nat | i < |bs| ensures i in LatestAt(bs, n) <==> i in order[..p] {
      var q := PositionOf(bs, order, i);
      PositionIsRank(bs, order, q);
      if q < p {
        assert order[..p][q] == i;
      }
      forall r | 0 <= r < p && order[..p][r] == i ensures r == q {
        BeforeIsIrreflexive(bs, i);
      }
    }
  }
}
