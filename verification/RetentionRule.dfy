/** The grandfather-father-son rule over a population of snapshots with distinct names, and why
    applying it early and often leaves the same survivors as applying it once. */
module RetentionRule {
  import opened Text

  /** A snapshot as retention sees it: CR name, completion time, pin. */
  datatype View = View(name: string, endTime: int, pinned: bool)

  datatype Policy = Policy(
    latest: Option<nat>, hourly: Option<nat>, daily: Option<nat>,
    weekly: Option<nat>, monthly: Option<nat>, annual: Option<nat>)

  /** The calendar period a time falls in, per bucket. Arbitrary functions of time. */
  datatype Calendar = Calendar(
    hour: int -> (int, int, int), day: int -> (int, int),
    week: int -> (int, int), month: int -> (int, int), year: int -> int)

  /** Newest first, ties by name. */
  predicate Newer(v: View, w: View) {
    v.endTime > w.endTime || (v.endTime == w.endTime && StrLess(v.name, w.name))
  }

  lemma NewerIsTotal(v: View, w: View)
    requires v.name != w.name
    ensures Newer(v, w) || Newer(w, v)
  {
    StrLessTotal(v.name, w.name);
  }

  lemma NewerIsTransitive(u: View, v: View, w: View)
    requires Newer(u, v) && Newer(v, w)
    ensures Newer(u, w)
  {
    if u.endTime == v.endTime == w.endTime {
      StrLessTransitive(u.name, v.name, w.name);
    }
  }

  lemma NewerIsAsymmetric(v: View, w: View)
    requires Newer(v, w)
    ensures !Newer(w, v) && v != w
  {
    StrLessIrreflexive(v.name);
    if v.endTime == w.endTime && StrLess(w.name, v.name) {
      StrLessTransitive(v.name, w.name, v.name);
    }
  }

  ghost predicate DistinctNames(a: set<View>) {
    forall v, w :: v in a && w in a && v.name == w.name ==> v == w
  }

  // --- one bucket -------------------------------------------------------------------

  function ByTime<K>(key: int -> K): View -> K { (v: View) => key(v.endTime) }

  /** Every snapshot is its own period: the `keepLatest` bucket. */
  function ByView(): View -> View { (v: View) => v }

  /** `v` is the newest snapshot of its period. */
  ghost predicate Leads<K>(a: set<View>, key: View -> K, v: View) {
    forall w :: w in a && w != v && key(w) == key(v) ==> Newer(v, w)
  }

  ghost function NewerPeriods<K>(a: set<View>, key: View -> K, v: View): set<K> {
    set w | w in a && Newer(w, v) :: key(w)
  }

  /** The bucket keeps `v`: newest of its period, with fewer than `n` distinct newer periods. */
  ghost predicate InBucket<K>(a: set<View>, key: View -> K, n: Option<nat>, v: View) {
    n.Some? && Leads(a, key, v) && |NewerPeriods(a, key, v)| < n.value
  }

  ghost predicate Kept(a: set<View>, cal: Calendar, p: Policy, v: View) {
    || v.pinned
    || InBucket(a, ByView(), p.latest, v)
    || InBucket(a, ByTime(cal.hour), p.hourly, v)
    || InBucket(a, ByTime(cal.day), p.daily, v)
    || InBucket(a, ByTime(cal.week), p.weekly, v)
    || InBucket(a, ByTime(cal.month), p.monthly, v)
    || InBucket(a, ByTime(cal.year), p.annual, v)
  }

  ghost function Keep(a: set<View>, cal: Calendar, p: Policy): set<View> {
    set v | v in a && Kept(a, cal, p, v)
  }

  // --- finite sets ---------------------------------------------------------------------

  lemma SubsetCardinality<T>(a: set<T>, b: set<T>)
    requires a <= b
    ensures |a| <= |b|
  {
    assert b == a + (b - a);
  }

  lemma {:induction false} NewestOf(a: set<View>) returns (v: View)
    requires a != {} && DistinctNames(a)
    ensures v in a && forall w :: w in a && w != v ==> Newer(v, w)
    decreases |a|
  {
    v :| v in a;
    var rest := a - {v};
    if rest != {} {
      var u := NewestOf(rest);
      NewerIsTotal(u, v);
      if Newer(u, v) {
        v := u;
      } else {
        forall w | w in a && w != v ensures Newer(v, w) {
          if w != u {
            NewerIsTransitive(v, u, w);
          }
        }
      }
    }
  }

  /** The newest snapshot of the period of `w`. */
  lemma LeaderOf<K>(a: set<View>, key: View -> K, w: View) returns (r: View)
    requires w in a && DistinctNames(a)
    ensures r in a && key(r) == key(w) && Leads(a, key, r)
    ensures r == w || Newer(r, w)
  {
    var period := set x | x in a && key(x) == key(w);
    assert w in period;
    r := NewestOf(period);
  }

  // --- growing and shrinking the population ------------------------------------------------

  /** What a bucket keeps of a population it keeps of every part: a snapshot once rejected stays rejected. */
  lemma BucketKeepsInPart<K>(a: set<View>, b: set<View>, key: View -> K, n: Option<nat>, v: View)
    requires b <= a && InBucket(a, key, n, v)
    ensures InBucket(b, key, n, v)
  {
    SubsetCardinality(NewerPeriods(b, key, v), NewerPeriods(a, key, v));
  }

  /** Dropping snapshots the bucket rejects lets no other snapshot in. */
  lemma BucketAdmitsNoMore<K>(a: set<View>, b: set<View>, key: View -> K, n: Option<nat>, v: View)
    requires b <= a && DistinctNames(a) && v in b
    requires forall w :: w in a && InBucket(a, key, n, w) ==> w in b
    requires InBucket(b, key, n, v)
    ensures InBucket(a, key, n, v)
  {
    var missing := set r | r in a && Newer(r, v) && Leads(a, key, r) && !InBucket(a, key, n, r);
    if missing != {} {
      var r0 := NewestOf(missing);
      forall w | w in a && Newer(w, r0) ensures key(w) in NewerPeriods(b, key, v) {
        var r := LeaderAbove(a, key, w, r0);
        NewerIsTransitive(r, r0, v);
        NewerIsAsymmetric(r, r0);
        assert r !in missing;
      }
      assert NewerPeriods(a, key, r0) <= NewerPeriods(b, key, v);
      SubsetCardinality(NewerPeriods(a, key, r0), NewerPeriods(b, key, v));
      assert false;
    }
    forall w | w in a && Newer(w, v)
      ensures key(w) in NewerPeriods(b, key, v) && key(w) != key(v)
    {
      var r := LeaderAbove(a, key, w, v);
      assert r !in missing;
      NewerIsAsymmetric(r, v);
    }
    assert NewerPeriods(a, key, v) <= NewerPeriods(b, key, v);
    SubsetCardinality(NewerPeriods(a, key, v), NewerPeriods(b, key, v));
    forall w | w in a && w != v && key(w) == key(v) ensures Newer(v, w) {
      NewerIsTotal(v, w);
    }
  }

  lemma LeaderAbove<K>(a: set<View>, key: View -> K, w: View, v: View) returns (r: View)
    requires w in a && Newer(w, v) && DistinctNames(a)
    ensures r in a && key(r) == key(w) && Leads(a, key, r) && Newer(r, v)
  {
    r := LeaderOf(a, key, w);
    if r != w {
      NewerIsTransitive(r, w, v);
    }
  }

  /** A snapshot rejected once is never selected from a larger population. */
  lemma RejectedStaysRejected(a: set<View>, b: set<View>, cal: Calendar, p: Policy, v: View)
    requires b <= a && !Kept(b, cal, p, v)
    ensures !Kept(a, cal, p, v)
  {
    if InBucket(a, ByView(), p.latest, v) { BucketKeepsInPart(a, b, ByView(), p.latest, v); }
    if InBucket(a, ByTime(cal.hour), p.hourly, v) { BucketKeepsInPart(a, b, ByTime(cal.hour), p.hourly, v); }
    if InBucket(a, ByTime(cal.day), p.daily, v) { BucketKeepsInPart(a, b, ByTime(cal.day), p.daily, v); }
    if InBucket(a, ByTime(cal.week), p.weekly, v) { BucketKeepsInPart(a, b, ByTime(cal.week), p.weekly, v); }
    if InBucket(a, ByTime(cal.month), p.monthly, v) { BucketKeepsInPart(a, b, ByTime(cal.month), p.monthly, v); }
    if InBucket(a, ByTime(cal.year), p.annual, v) { BucketKeepsInPart(a, b, ByTime(cal.year), p.annual, v); }
  }

  /** Any population between the survivors and the whole has the same survivors; in particular the
      selection is stable on its own kept set. */
  lemma KeepBetween(a: set<View>, b: set<View>, cal: Calendar, p: Policy)
    requires DistinctNames(a) && Keep(a, cal, p) <= b <= a
    ensures Keep(b, cal, p) == Keep(a, cal, p)
  {
    forall v | v in b ensures Kept(b, cal, p, v) <==> Kept(a, cal, p, v) {
      if !Kept(b, cal, p, v) {
        RejectedStaysRejected(a, b, cal, p, v);
      } else if !v.pinned {
        assert forall w :: w in a && Kept(a, cal, p, w) ==> w in Keep(a, cal, p);
        if InBucket(b, ByView(), p.latest, v) { BucketAdmitsNoMore(a, b, ByView(), p.latest, v); }
        if InBucket(b, ByTime(cal.hour), p.hourly, v) { BucketAdmitsNoMore(a, b, ByTime(cal.hour), p.hourly, v); }
        if InBucket(b, ByTime(cal.day), p.daily, v) { BucketAdmitsNoMore(a, b, ByTime(cal.day), p.daily, v); }
        if InBucket(b, ByTime(cal.week), p.weekly, v) { BucketAdmitsNoMore(a, b, ByTime(cal.week), p.weekly, v); }
        if InBucket(b, ByTime(cal.month), p.monthly, v) { BucketAdmitsNoMore(a, b, ByTime(cal.month), p.monthly, v); }
        if InBucket(b, ByTime(cal.year), p.annual, v) { BucketAdmitsNoMore(a, b, ByTime(cal.year), p.annual, v); }
      }
    }
  }

  /** Pruning before new snapshots arrive changes nothing. */
  lemma KeepOfUnion(a: set<View>, b: set<View>, cal: Calendar, p: Policy)
    requires DistinctNames(a + b)
    ensures Keep(Keep(a, cal, p) + b, cal, p) == Keep(a + b, cal, p)
  {
    forall v | v in Keep(a + b, cal, p) && v in a ensures v in Keep(a, cal, p) {
      if !Kept(a, cal, p, v) {
        RejectedStaysRejected(a + b, a, cal, p, v);
      }
    }
    KeepBetween(a + b, Keep(a, cal, p) + b, cal, p);
  }
}
