/** What the selection means in completion times: which snapshots are the newest, and that they are the ones kept. */
module RetentionTime {
  import opened Text
  import opened RetentionRule
  import opened RetentionSelect
  import opened RetentionOrder

  /** Completed later, or at the same time under a name no later in the dictionary. */
  ghost predicate AsRecent(v: View, w: View) {
    v.endTime > w.endTime || (v.endTime == w.endTime && (v.name == w.name || Precedes(v.name, w.name)))
  }

  lemma BeforeIsAsRecent(bs: seq<View>, i: nat, j: nat)
    requires i < |bs| && j < |bs| && Before(bs, i, j)
    ensures AsRecent(bs[i], bs[j])
  {
    hide StrLess, Precedes;
    StrLessIsDictionaryOrder(bs[i].name, bs[j].name);
  }

  lemma LaterIsBefore(bs: seq<View>, i: nat, j: nat)
    requires i < |bs| && j < |bs| && bs[i].endTime > bs[j].endTime
    ensures Before(bs, i, j)
  {
  }

  lemma {:induction false} OrderLength(bs: seq<View>, n: nat)
    requires n <= |bs|
    ensures |SortIndices(bs, n)| == n
  {
    if n > 0 {
      OrderLength(bs, n - 1);
      InsertLength(bs, SortIndices(bs, n - 1), n - 1);
    }
  }

  lemma {:induction false} InsertLength(bs: seq<View>, order: seq<nat>, x: nat)
    requires x < |bs| && forall p :: 0 <= p < |order| ==> order[p] < |bs|
    ensures |Insert(bs, order, x)| == |order| + 1
    decreases |order|
  {
    if order != [] && !Before(bs, x, order[0]) {
      InsertLength(bs, order[1..], x);
    }
  }

  lemma OrderIsDistinct(bs: seq<View>, order: seq<nat>)
    requires Sorted(bs, order)
    ensures forall q, r :: 0 <= q < r < |order| ==> order[q] != order[r]
  {
    forall q, r | 0 <= q < r < |order| ensures order[q] != order[r] {
      BeforeIsAsymmetric(bs, order[q], order[r]);
    }
  }

  function Min(a: nat, b: nat): nat { if a <= b then a else b }

  // --- keepLatest ---------------------------------------------------------------------------

  /** `keepLatest: n` keeps n entries (or all), and none it passes over is more recent than one it keeps. */
  lemma LatestAreTheMostRecent(bs: seq<View>, n: nat)
    ensures |LatestAt(bs, Some(n))| == Min(n, |bs|)
    ensures forall i, j: nat :: i in LatestAt(bs, Some(n)) && j < |bs| && j !in LatestAt(bs, Some(n))
                                ==> AsRecent(bs[i], bs[j])
  {
    hide AsRecent, Before, SortIndices;
    var order := SortIndices(bs, |bs|);
    OrderLength(bs, |bs|);
    var p := Min(n, |bs|);
    LatestIsPrefix(bs, order, Some(n), p);
    OrderIsDistinct(bs, order);
    PrefixCardinality(order, p);
    var latest := LatestAt(bs, Some(n));
    forall r | 0 <= r < p ensures order[r] in latest {
      assert order[..p][r] == order[r];
    }
    forall i, j: nat | i in latest && j < |bs| && j !in latest ensures AsRecent(bs[i], bs[j]) {
      var q :| 0 <= q < p && order[..p][q] == i;
      var r := PositionOf(bs, order, j);
      BeforeIsAsRecent(bs, order[q], order[r]);
    }
  }

  // --- one bucket -----------------------------------------------------------------------------

  ghost function AllPeriods<K(!new)>(bs: seq<View>, key: int -> K): set<K> {
    set i: nat | i < |bs| :: key(bs[i].endTime)
  }

  /** The most recent entry of a period. */
  lemma FirstOfPeriod<K(!new)>(bs: seq<View>, key: int -> K, j: nat) returns (i: nat)
    requires j < |bs|
    ensures i < |bs| && key(bs[i].endTime) == key(bs[j].endTime) && LeadsAt(bs, key, i)
    ensures i == j || Before(bs, i, j)
  {
    hide Before, SortIndices;
    var order := SortIndices(bs, |bs|);
    var p := PositionOf(bs, order, j);
    var q := FirstWith(bs, order, key, p);
    i := order[q];
    forall m | 0 <= m < |bs| && m != i && key(bs[m].endTime) == key(bs[i].endTime) ensures Before(bs, i, m) {
      var r := PositionOf(bs, order, m);
    }
  }

  lemma {:induction false} FirstWith<K(!new)>(bs: seq<View>, order: seq<nat>, key: int -> K, p: nat) returns (q: nat)
    requires p < |order| && forall r :: 0 <= r < |order| ==> order[r] < |bs|
    ensures q <= p && key(bs[order[q]].endTime) == key(bs[order[p]].endTime)
    ensures forall r :: 0 <= r < q ==> key(bs[order[r]].endTime) != key(bs[order[p]].endTime)
  {
    q := 0;
    while key(bs[order[q]].endTime) != key(bs[order[p]].endTime)
      invariant q <= p
      invariant forall r :: 0 <= r < q ==> key(bs[order[r]].endTime) != key(bs[order[p]].endTime)
      decreases p - q
    {
      q := q + 1;
    }
  }

  /** What a bucket keeps is the most recent of its period; with an entry it keeps one of every period that has a more
      recent entry; and it keeps as many as it may, one per period. */
  lemma BucketKeepsTheMostRecent<K(!new)>(bs: seq<View>, key: int -> K, n: nat)
    ensures forall i, j: nat :: i in BucketAt(bs, key, Some(n)) && j < |bs| && key(bs[j].endTime) == key(bs[i].endTime)
                                ==> AsRecent(bs[i], bs[j])
    ensures forall i, j: nat :: i in BucketAt(bs, key, Some(n)) && j < |bs| && bs[j].endTime > bs[i].endTime
                                ==> exists k :: k in BucketAt(bs, key, Some(n))
                                                && key(bs[k].endTime) == key(bs[j].endTime)
    ensures |BucketAt(bs, key, Some(n))| == Min(n, |AllPeriods(bs, key)|)
  {
    hide AsRecent, Before, SortIndices;
    var kept := BucketAt(bs, key, Some(n));
    forall i, j: nat | i in kept && j < |bs|
           && key(bs[j].endTime) == key(bs[i].endTime) ensures AsRecent(bs[i], bs[j]) {
      if i == j {
        SelfIsAsRecent(bs[i]);
      } else {
        BeforeIsAsRecent(bs, i, j);
      }
    }
    forall i, j: nat | i in kept && j < |bs| && bs[j].endTime > bs[i].endTime
      ensures exists k :: k in kept && key(bs[k].endTime) == key(bs[j].endTime)
    {
      var k := FirstOfPeriod(bs, key, j);
      LaterIsBefore(bs, j, i);
      if k != j {
        BeforeIsTransitive(bs, k, j, i);
      }
      EarlierHasFewerPeriods(bs, key, k, i);
      assert k in kept;
    }
    BucketCount(bs, key, n);
  }

  lemma SelfIsAsRecent(v: View)
    ensures AsRecent(v, v)
  {
  }

  lemma EarlierHasFewerPeriods<K(!new)>(bs: seq<View>, key: int -> K, k: nat, i: nat)
    requires k < |bs| && i < |bs| && Before(bs, k, i)
    ensures |PeriodsBefore(bs, key, k)| <= |PeriodsBefore(bs, key, i)|
  {
    forall m: nat | m < |bs| && Before(bs, m, k) ensures Before(bs, m, i) {
      BeforeIsTransitive(bs, m, k, i);
    }
    assert PeriodsBefore(bs, key, k) <= PeriodsBefore(bs, key, i);
    SubsetCardinality(PeriodsBefore(bs, key, k), PeriodsBefore(bs, key, i));
  }

  ghost function Openers<K(!new)>(sorted: seq<nat>, times: seq<int>, count: nat, key: int -> K, p: nat): set<nat>
    requires forall q :: 0 <= q < |sorted| ==> sorted[q] < |times|
  {
    set q: nat | q < p && q < |sorted| && OpensPeriod(sorted, times, count, key, q) :: sorted[q]
  }

  lemma PeriodsStep<K(!new)>(sorted: seq<nat>, times: seq<int>, key: int -> K, p: nat)
    requires p < |sorted| && forall q :: 0 <= q < |sorted| ==> sorted[q] < |times|
    ensures Periods(sorted[..p + 1], times, key) == Periods(sorted[..p], times, key) + {key(times[sorted[p]])}
  {
    assert sorted[..p + 1] == sorted[..p] + [sorted[p]];
  }

  lemma OpenersStep<K(!new)>(sorted: seq<nat>, times: seq<int>, count: nat, key: int -> K, p: nat)
    requires p < |sorted| && forall q :: 0 <= q < |sorted| ==> sorted[q] < |times|
    requires forall q, r :: 0 <= q < r < |sorted| ==> sorted[q] != sorted[r]
    ensures var opens := OpensPeriod(sorted, times, count, key, p);
            Openers(sorted, times, count, key, p + 1)
            == Openers(sorted, times, count, key, p) + if opens then {sorted[p]} else {}
    ensures sorted[p] !in Openers(sorted, times, count, key, p)
  {
    hide OpensPeriod;
  }

  lemma {:induction false} OpenerCount<K(!new)>(sorted: seq<nat>, times: seq<int>, count: nat, key: int -> K, p: nat)
    requires forall q :: 0 <= q < |sorted| ==> sorted[q] < |times|
    requires forall q, r :: 0 <= q < r < |sorted| ==> sorted[q] != sorted[r]
    requires p <= |sorted|
    ensures |Openers(sorted, times, count, key, p)| == Min(count, |Periods(sorted[..p], times, key)|)
  {
    if p == 0 {
      assert Openers(sorted, times, count, key, p) == {} && Periods(sorted[..0], times, key) == {};
    } else {
      OpenerCount(sorted, times, count, key, p - 1);
      CountStep(sorted, times, count, key, p - 1);
    }
  }

  lemma CountStep<K(!new)>(sorted: seq<nat>, times: seq<int>, count: nat, key: int -> K, p: nat)
    requires forall q :: 0 <= q < |sorted| ==> sorted[q] < |times|
    requires forall q, r :: 0 <= q < r < |sorted| ==> sorted[q] != sorted[r]
    requires p < |sorted|
    requires |Openers(sorted, times, count, key, p)| == Min(count, |Periods(sorted[..p], times, key)|)
    ensures |Openers(sorted, times, count, key, p + 1)| == Min(count, |Periods(sorted[..p + 1], times, key)|)
  {
    hide Openers, Periods;
    OpenersStep(sorted, times, count, key, p);
    PeriodsStep(sorted, times, key, p);
    OneMoreOpener(Openers(sorted, times, count, key, p), sorted[p], Periods(sorted[..p], times, key),
                  key(times[sorted[p]]), count);
  }

  lemma OneMoreOpener<K>(openers: set<nat>, x: nat, seen: set<K>, k: K, count: nat)
    requires |openers| == Min(count, |seen|) && x !in openers
    ensures |openers + if k !in seen && |seen| < count then {x} else {}| == Min(count, |seen + {k}|)
  {
    if k in seen {
      assert seen + {k} == seen;
    }
    assert openers + {} == openers;
  }

  lemma BucketCount<K(!new)>(bs: seq<View>, key: int -> K, n: nat)
    ensures |BucketAt(bs, key, Some(n))| == Min(n, |AllPeriods(bs, key)|)
  {
    hide Before, SortIndices, OpensPeriod;
    var order := SortIndices(bs, |bs|);
    OrderLength(bs, |bs|);
    OrderIsDistinct(bs, order);
    var times := seq(|bs|, i requires 0 <= i < |bs| => bs[i].endTime);
    OpenerCount(order, times, n, key, |order|);
    assert order[..|order|] == order;
    forall i: nat | i < |bs|
      ensures i in BucketAt(bs, key, Some(n)) <==> i in Openers(order, times, n, key, |order|)
    {
      var p := PositionOf(bs, order, i);
      OpensIsBucket(bs, order, times, n, key, p);
    }
    assert BucketAt(bs, key, Some(n)) == Openers(order, times, n, key, |order|);
    forall k | k in AllPeriods(bs, key) ensures k in Periods(order, times, key) {
      var i: nat :| i < |bs| && key(bs[i].endTime) == k;
      var p := PositionOf(bs, order, i);
      assert key(times[order[p]]) == k;
    }
    assert AllPeriods(bs, key) == Periods(order, times, key);
  }

  // --- the whole selection ----------------------------------------------------------------------

  ghost predicate MostRecentFirst(vs: seq<View>) {
    forall i, j :: 0 <= i < j < |vs| ==> AsRecent(vs[i], vs[j])
  }

  lemma {:induction false} ChosenByTime(bs: seq<View>, order: seq<nat>, chosen: set<nat>)
    requires Sorted(bs, order)
    ensures MostRecentFirst(ViewsIn(bs, order, chosen))
    decreases |order|
  {
    hide AsRecent, Before;
    if order != [] {
      var front := order[..|order| - 1];
      ChosenByTime(bs, front, chosen);
      ChosenElements(bs, front, chosen);
      var vs := ViewsIn(bs, front, chosen);
      forall k | 0 <= k < |vs| ensures AsRecent(vs[k], bs[order[|order| - 1]]) {
        assert vs[k] in vs;
        var p :| 0 <= p < |front| && front[p] in chosen && bs[front[p]] == vs[k];
        BeforeIsAsRecent(bs, order[p], order[|order| - 1]);
      }
    }
  }

  ghost predicate Counts(p: Policy) {
    exists n: nat :: n > 0 && Some(n) in {p.latest, p.hourly, p.daily, p.weekly, p.monthly, p.annual}
  }

  /** Whatever the input: both lists run from the most to the least recent, pins survive, and once any count is positive
      the most recent snapshot of all survives, at the head of the list. With no count only pins survive. */
  lemma SelectionFavoursTheRecent(bs: seq<View>, cal: Calendar, p: Policy)
    ensures MostRecentFirst(Survivors(bs, cal, p)) && MostRecentFirst(Losers(bs, cal, p))
    ensures forall v :: v in bs && v.pinned ==> v in Survivors(bs, cal, p)
    ensures Counts(p) && bs != [] ==>
              Survivors(bs, cal, p) != [] && forall w :: w in bs ==> w.endTime <= Survivors(bs, cal, p)[0].endTime
    ensures !Counts(p) ==> forall v :: v in Survivors(bs, cal, p) ==> v.pinned
  {
    hide AsRecent, SortIndices, MostRecentFirst, KeptAt, Counts;
    var order, kept := SortIndices(bs, |bs|), KeptAt(bs, cal, p);
    ChosenByTime(bs, order, kept);
    ChosenByTime(bs, order, Others(bs, kept));
    ChosenElements(bs, order, kept);
    forall v | v in bs && v.pinned ensures v in Survivors(bs, cal, p) {
      var i :| 0 <= i < |bs| && bs[i] == v;
      PinnedIsKept(bs, cal, p, i);
      var q := PositionOf(bs, order, i);
      assert bs[order[q]] == v;
    }
    if Counts(p) && bs != [] {
      OrderLength(bs, |bs|);
      HeadIsKept(bs, cal, p);
      assert bs[order[0]] in Survivors(bs, cal, p);
      forall w | w in bs ensures w.endTime <= Survivors(bs, cal, p)[0].endTime {
        var j :| 0 <= j < |bs| && bs[j] == w;
        HeadIsLatest(bs, order, j);
        HeadOfList(Survivors(bs, cal, p), bs[order[0]]);
      }
    }
    if !Counts(p) {
      forall v | v in Survivors(bs, cal, p) ensures v.pinned {
        var q :| 0 <= q < |order| && order[q] in kept && bs[order[q]] == v;
        NothingElseIsKept(bs, cal, p, order[q]);
      }
    }
  }

  lemma PinnedIsKept(bs: seq<View>, cal: Calendar, p: Policy, i: nat)
    requires i < |bs| && bs[i].pinned
    ensures i in KeptAt(bs, cal, p)
  {
    hide LatestAt, BucketAt;
  }

  lemma NothingElseIsKept(bs: seq<View>, cal: Calendar, p: Policy, i: nat)
    requires i in KeptAt(bs, cal, p) && !Counts(p)
    ensures i < |bs| && bs[i].pinned
  {
    hide LeadsAt, PeriodsBefore, NewerThan;
    if i !in PinnedAt(bs) {
      var n: nat :| n > 0 && Some(n) in {p.latest, p.hourly, p.daily, p.weekly, p.monthly, p.annual};
      assert false;
    }
  }

  lemma HeadIsLatest(bs: seq<View>, order: seq<nat>, j: nat)
    requires IsOrder(bs, order, |bs|) && |order| > 0 && j < |bs|
    ensures bs[j].endTime <= bs[order[0]].endTime
  {
    var q := PositionOf(bs, order, j);
    if q > 0 {
      BeforeIsAsRecent(bs, order[0], order[q]);
    }
  }

  lemma HeadOfList(vs: seq<View>, v: View)
    requires MostRecentFirst(vs) && v in vs
    ensures vs != [] && v.endTime <= vs[0].endTime
  {
    var i :| 0 <= i < |vs| && vs[i] == v;
    if i > 0 {
      assert AsRecent(vs[0], vs[i]);
    }
  }

  lemma HeadIsKept(bs: seq<View>, cal: Calendar, p: Policy)
    requires bs != [] && Counts(p)
    ensures |SortIndices(bs, |bs|)| > 0 && SortIndices(bs, |bs|)[0] in KeptAt(bs, cal, p)
  {
    hide SortIndices, Before, LeadsAt, PeriodsBefore, NewerThan;
    var order := SortIndices(bs, |bs|);
    OrderLength(bs, |bs|);
    HeadHasRankZero(bs, order);
    HeadLeads(bs, order, cal.hour);
    HeadLeads(bs, order, cal.day);
    HeadLeads(bs, order, cal.week);
    HeadLeads(bs, order, cal.month);
    HeadLeads(bs, order, cal.year);
    var n: nat :| n > 0 && Some(n) in {p.latest, p.hourly, p.daily, p.weekly, p.monthly, p.annual};
  }

  lemma HeadHasRankZero(bs: seq<View>, order: seq<nat>)
    requires IsOrder(bs, order, |bs|) && |order| > 0
    ensures |NewerThan(bs, order[0])| == 0
  {
    PositionIsRank(bs, order, 0);
  }

  lemma HeadLeads<K(!new)>(bs: seq<View>, order: seq<nat>, key: int -> K)
    requires IsOrder(bs, order, |bs|) && |order| > 0
    ensures LeadsAt(bs, key, order[0]) && |PeriodsBefore(bs, key, order[0])| == 0
  {
    hide Before;
    forall j: nat | j < |bs| ensures !Before(bs, j, order[0]) && (j != order[0] ==> Before(bs, order[0], j)) {
      PrefixIsBefore(bs, order, 0, j);
      var q := PositionOf(bs, order, j);
    }
    assert PeriodsBefore(bs, key, order[0]) == {};
  }

  /** Each count is counted in its own calendar: where a count is not set, its calendar does not matter. */
  lemma UnsetCountsIgnoreTheirCalendar(bs: seq<View>, cal: Calendar, other: Calendar, p: Policy)
    requires p.hourly.Some? ==> cal.hour == other.hour
    requires p.daily.Some? ==> cal.day == other.day
    requires p.weekly.Some? ==> cal.week == other.week
    requires p.monthly.Some? ==> cal.month == other.month
    requires p.annual.Some? ==> cal.year == other.year
    ensures Survivors(bs, cal, p) == Survivors(bs, other, p) && Losers(bs, cal, p) == Losers(bs, other, p)
  {
    hide SortIndices, LeadsAt, PeriodsBefore, ViewsIn, LatestAt, PinnedAt;
    assert KeptAt(bs, cal, p) == KeptAt(bs, other, p);
  }

  const D24: View := View("d24", 24, false)
  const D23: View := View("d23", 23, false)
  const D22: View := View("d22", 22, false)
  const DAYS: seq<View> := [D22, D24, D23]
  const TWO_DAYS: Policy := Policy(None, None, Some(2), None, None, None)

  ghost predicate DaysDiffer(cal: Calendar) {
    cal.day(24) != cal.day(23) && cal.day(24) != cal.day(22) && cal.day(23) != cal.day(22)
  }

  /** The documented example: `keepDaily: 2` over three days keeps the two latest and prunes the oldest. */
  lemma TwoOfThreeDays(cal: Calendar)
    requires DaysDiffer(cal)
    ensures D24 in Survivors(DAYS, cal, TWO_DAYS) && D23 in Survivors(DAYS, cal, TWO_DAYS)
    ensures D22 in Losers(DAYS, cal, TWO_DAYS) && D22 !in Survivors(DAYS, cal, TWO_DAYS)
  {
    hide SortIndices, BucketAt, DaysDiffer;
    DaysKept(cal);
    var order, kept := SortIndices(DAYS, 3), KeptAt(DAYS, cal, TWO_DAYS);
    assert kept == {1, 2} by {
      NoOtherCounts(cal);
    }
    hide KeptAt;
    ChosenElements(DAYS, order, kept);
    ChosenElements(DAYS, order, Others(DAYS, kept));
    var p0 := PositionOf(DAYS, order, 0);
    var p1 := PositionOf(DAYS, order, 1);
    var p2 := PositionOf(DAYS, order, 2);
    assert DAYS[order[p0]] == D22 && DAYS[order[p1]] == D24 && DAYS[order[p2]] == D23;
    assert order[p0] in Others(DAYS, kept);
  }

  lemma NoOtherCounts(cal: Calendar)
    ensures KeptAt(DAYS, cal, TWO_DAYS) == BucketAt(DAYS, cal.day, Some(2))
  {
    hide LeadsAt, PeriodsBefore, NewerThan;
    assert PinnedAt(DAYS) == {};
    assert LatestAt(DAYS, None) == {};
  }

  lemma ThreePeriods(cal: Calendar)
    requires DaysDiffer(cal)
    ensures |AllPeriods(DAYS, cal.day)| == 3
  {
    var days := AllPeriods(DAYS, cal.day);
    assert cal.day(DAYS[0].endTime) in days && cal.day(DAYS[1].endTime) in days && cal.day(DAYS[2].endTime) in days;
    assert days == {cal.day(22), cal.day(24), cal.day(23)};
  }

  /** What two of three days must satisfy, whichever they are. */
  ghost predicate LaterDaysToo(cal: Calendar, kept: set<nat>) {
    && (forall i :: i in kept ==> i < 3)
    && (forall i, j: nat :: i in kept && j < 3 && DAYS[j].endTime > DAYS[i].endTime
                            ==> exists k :: k in kept && cal.day(DAYS[k].endTime) == cal.day(DAYS[j].endTime))
  }

  lemma TwoDaysOfThree(cal: Calendar)
    requires DaysDiffer(cal)
    ensures |BucketAt(DAYS, cal.day, Some(2))| == 2 && LaterDaysToo(cal, BucketAt(DAYS, cal.day, Some(2)))
  {
    hide LeadsAt, PeriodsBefore, AllPeriods, AsRecent, DaysDiffer;
    ThreePeriods(cal);
    BucketKeepsTheMostRecent(DAYS, cal.day, 2);
  }

  lemma DaysKept(cal: Calendar)
    requires DaysDiffer(cal)
    ensures BucketAt(DAYS, cal.day, Some(2)) == {1, 2}
  {
    hide BucketAt, LaterDaysToo, DaysDiffer;
    TwoDaysOfThree(cal);
    OldestIsNotOfTwo(cal, BucketAt(DAYS, cal.day, Some(2)));
  }

  lemma OldestIsNotOfTwo(cal: Calendar, kept: set<nat>)
    requires DaysDiffer(cal) && |kept| == 2 && LaterDaysToo(cal, kept)
    ensures kept == {1, 2}
  {
    hide DaysDiffer;
    if 0 in kept {
      LaterDayIsKept(cal, kept, 1);
      LaterDayIsKept(cal, kept, 2);
      SubsetCardinality({0, 1, 2}, kept);
    }
    PairOfTwo(kept);
  }

  lemma LaterDayIsKept(cal: Calendar, kept: set<nat>, j: nat)
    requires DaysDiffer(cal) && 0 in kept && 1 <= j < 3 && LaterDaysToo(cal, kept)
    ensures j in kept
  {
    assert DAYS[j].endTime > DAYS[0].endTime;
    var k :| k in kept && cal.day(DAYS[k].endTime) == cal.day(DAYS[j].endTime);
    assert k == j;
  }

  lemma PairOfTwo(kept: set<nat>)
    requires |kept| == 2 && 0 !in kept && forall i :: i in kept ==> i < 3
    ensures kept == {1, 2}
  {
    if 1 !in kept {
      SubsetCardinality(kept, {2});
    }
    if 2 !in kept {
      SubsetCardinality(kept, {1});
    }
  }
}
