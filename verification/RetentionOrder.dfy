/** The selection on sequences is the set rule: it partitions its input and ignores input order. */
module RetentionOrder {
  import opened Text
  import opened RetentionRule
  import opened RetentionSelect

  ghost predicate DistinctInput(bs: seq<View>) {
    forall i, j :: 0 <= i < j < |bs| ==> bs[i].name != bs[j].name
  }

  function Population(bs: seq<View>): set<View> { set v | v in bs }

  // --- keep and delete partition the input ---------------------------------------------

  ghost function ViewsOf(bs: seq<View>, order: seq<nat>): seq<View>
    requires forall p :: 0 <= p < |order| ==> order[p] < |bs|
  {
    seq(|order|, p requires 0 <= p < |order| => bs[order[p]])
  }

  lemma OneMore(x: seq<View>, y: seq<View>, all: seq<View>, v: View)
    requires multiset(x) + multiset(y) == multiset(all)
    ensures multiset(x + [v]) + multiset(y + []) == multiset(all + [v])
  {
    assert y + [] == y;
    assert multiset(x + [v]) == multiset(x) + multiset{v};
    assert multiset(all + [v]) == multiset(all) + multiset{v};
  }

  lemma {:induction false} SplitIsPartition(bs: seq<View>, order: seq<nat>, chosen: set<nat>)
    requires forall p :: 0 <= p < |order| ==> order[p] < |bs|
    ensures multiset(ViewsIn(bs, order, chosen)) + multiset(ViewsIn(bs, order, Others(bs, chosen)))
            == multiset(ViewsOf(bs, order))
    decreases |order|
  {
    if order != [] {
      var front := order[..|order| - 1];
      var last := order[|order| - 1];
      SplitIsPartition(bs, front, chosen);
      var yes, no := ViewsIn(bs, front, chosen), ViewsIn(bs, front, Others(bs, chosen));
      assert ViewsOf(bs, order) == ViewsOf(bs, front) + [bs[last]];
      if last in chosen {
        assert ViewsIn(bs, order, Others(bs, chosen)) == no + [];
        OneMore(yes, no, ViewsOf(bs, front), bs[last]);
      } else {
        assert ViewsIn(bs, order, chosen) == yes + [];
        OneMore(no, yes, ViewsOf(bs, front), bs[last]);
      }
    }
  }

  lemma {:induction false} InsertAddsOne(bs: seq<View>, order: seq<nat>, x: nat)
    requires x < |bs| && forall p :: 0 <= p < |order| ==> order[p] < |bs|
    ensures forall p :: 0 <= p < |Insert(bs, order, x)| ==> Insert(bs, order, x)[p] < |bs|
    ensures multiset(ViewsOf(bs, Insert(bs, order, x))) == multiset(ViewsOf(bs, order)) + multiset{bs[x]}
    decreases |order|
  {
    var r := Insert(bs, order, x);
    if order == [] || Before(bs, x, order[0]) {
      assert ViewsOf(bs, r) == [bs[x]] + ViewsOf(bs, order);
    } else {
      InsertAddsOne(bs, order[1..], x);
      assert ViewsOf(bs, r) == [bs[order[0]]] + ViewsOf(bs, Insert(bs, order[1..], x));
      assert ViewsOf(bs, order) == [bs[order[0]]] + ViewsOf(bs, order[1..]);
    }
  }

  lemma {:induction false} SortIsPermutation(bs: seq<View>, n: nat)
    requires n <= |bs|
    ensures multiset(ViewsOf(bs, SortIndices(bs, n))) == multiset(bs[..n])
  {
    if n > 0 {
      SortIsPermutation(bs, n - 1);
      InsertAddsOne(bs, SortIndices(bs, n - 1), n - 1);
      assert bs[..n] == bs[..n - 1] + [bs[n - 1]];
    }
  }

  /** Every entry of every input is kept or deleted, exactly once. */
  lemma SelectionPartitions(bs: seq<View>, cal: Calendar, p: Policy)
    ensures multiset(Survivors(bs, cal, p)) + multiset(Losers(bs, cal, p)) == multiset(bs)
  {
    SplitIsPartition(bs, SortIndices(bs, |bs|), KeptAt(bs, cal, p));
    SortIsPermutation(bs, |bs|);
    assert bs[..|bs|] == bs;
  }

  // --- on distinct names the position rule is the set rule ------------------------------

  lemma BeforeIsNewer(bs: seq<View>, i: nat, j: nat)
    requires DistinctInput(bs) && i < |bs| && j < |bs|
    ensures Before(bs, i, j) <==> Newer(bs[i], bs[j])
  {
  }

  lemma PeriodsAgree<K(!new)>(bs: seq<View>, key: int -> K, n: Option<nat>, i: nat)
    requires DistinctInput(bs) && i < |bs|
    ensures i in BucketAt(bs, key, n) <==> InBucket(Population(bs), ByTime(key), n, bs[i])
  {
    var a := Population(bs);
    assert PeriodsBefore(bs, key, i) == NewerPeriods(a, ByTime(key), bs[i]) by {
      forall k | k in NewerPeriods(a, ByTime(key), bs[i]) ensures k in PeriodsBefore(bs, key, i) {
        var w :| w in a && Newer(w, bs[i]) && key(w.endTime) == k;
        var j :| 0 <= j < |bs| && bs[j] == w;
        assert Before(bs, j, i);
      }
      forall k | k in PeriodsBefore(bs, key, i) ensures k in NewerPeriods(a, ByTime(key), bs[i]) {
        var j :| 0 <= j < |bs| && Before(bs, j, i) && key(bs[j].endTime) == k;
        BeforeIsNewer(bs, j, i);
        assert ByTime(key)(bs[j]) == k;
      }
    }
    if LeadsAt(bs, key, i) {
      forall w | w in a && w != bs[i] && ByTime(key)(w) == ByTime(key)(bs[i]) ensures Newer(bs[i], w) {
        var j :| 0 <= j < |bs| && bs[j] == w;
        BeforeIsNewer(bs, i, j);
      }
    }
    if Leads(a, ByTime(key), bs[i]) {
      forall j | 0 <= j < |bs| && j != i && key(bs[j].endTime) == key(bs[i].endTime) ensures Before(bs, i, j) {
        assert bs[j] in a && bs[j] != bs[i];
        assert ByTime(key)(bs[j]) == ByTime(key)(bs[i]);
      }
    }
  }

  lemma {:induction false} ImageCardinality(bs: seq<View>, s: set<nat>, t: set<View>)
    requires DistinctInput(bs) && (forall i :: i in s ==> i < |bs|)
    requires t == set i | i in s && i < |bs| :: bs[i]
    ensures |s| == |t|
    decreases |s|
  {
    if s != {} {
      var i :| i in s;
      var s' := s - {i};
      var t' := set j | j in s' && j < |bs| :: bs[j];
      ImageCardinality(bs, s', t');
      assert bs[i] !in t';
      assert t == t' + {bs[i]};
    }
  }

  lemma RanksAgree(bs: seq<View>, n: Option<nat>, i: nat)
    requires DistinctInput(bs) && i < |bs|
    ensures i in LatestAt(bs, n) <==> InBucket(Population(bs), ByView(), n, bs[i])
  {
    var a := Population(bs);
    var newer := NewerPeriods(a, ByView(), bs[i]);
    assert newer == set j | j in NewerThan(bs, i) && j < |bs| :: bs[j] by {
      forall w | w in newer ensures w in (set j | j in NewerThan(bs, i) && j < |bs| :: bs[j]) {
        assert w in a && Newer(w, bs[i]);
        var j :| 0 <= j < |bs| && bs[j] == w;
        assert j in NewerThan(bs, i);
      }
      forall j | j in NewerThan(bs, i) ensures bs[j] in newer {
        BeforeIsNewer(bs, j, i);
        assert ByView()(bs[j]) == bs[j];
      }
    }
    ImageCardinality(bs, NewerThan(bs, i), newer);
  }

  lemma RuleAgrees(bs: seq<View>, cal: Calendar, p: Policy, i: nat)
    requires DistinctInput(bs) && i < |bs|
    ensures i in KeptAt(bs, cal, p) <==> Kept(Population(bs), cal, p, bs[i])
  {
    RanksAgree(bs, p.latest, i);
    PeriodsAgree(bs, cal.hour, p.hourly, i);
    PeriodsAgree(bs, cal.day, p.daily, i);
    PeriodsAgree(bs, cal.week, p.weekly, i);
    PeriodsAgree(bs, cal.month, p.monthly, i);
    PeriodsAgree(bs, cal.year, p.annual, i);
  }

  // --- sorted survivors -------------------------------------------------------------------

  ghost predicate NewestFirst(vs: seq<View>) {
    forall i, j :: 0 <= i < j < |vs| ==> Newer(vs[i], vs[j])
  }

  lemma {:induction false} ChosenElements(bs: seq<View>, order: seq<nat>, chosen: set<nat>)
    requires forall p :: 0 <= p < |order| ==> order[p] < |bs|
    ensures forall v :: v in ViewsIn(bs, order, chosen)
                        <==> exists p :: 0 <= p < |order| && order[p] in chosen && bs[order[p]] == v
    decreases |order|
  {
    if order != [] {
      ChosenElements(bs, order[..|order| - 1], chosen);
    }
  }

  lemma {:induction false} ChosenSorted(bs: seq<View>, order: seq<nat>, chosen: set<nat>)
    requires Sorted(bs, order) && DistinctInput(bs)
    ensures NewestFirst(ViewsIn(bs, order, chosen))
    decreases |order|
  {
    if order != [] {
      var front := order[..|order| - 1];
      ChosenSorted(bs, front, chosen);
      ChosenElements(bs, front, chosen);
      var vs := ViewsIn(bs, front, chosen);
      forall k | 0 <= k < |vs| ensures Newer(vs[k], bs[order[|order| - 1]]) {
        assert vs[k] in vs;
        var p :| 0 <= p < |front| && front[p] in chosen && bs[front[p]] == vs[k];
        BeforeIsNewer(bs, order[p], order[|order| - 1]);
      }
    }
  }

  lemma {:induction false} SortedIsUnique(s: seq<View>, t: seq<View>)
    requires NewestFirst(s) && NewestFirst(t)
    requires forall v :: v in s <==> v in t
    ensures s == t
    decreases |s|
  {
    assert s != [] ==> s[0] in t;
    assert t != [] ==> t[0] in s;
    if s != [] {
      var k :| 0 <= k < |t| && t[k] == s[0];
      var m :| 0 <= m < |s| && s[m] == t[0];
      if k > 0 && m > 0 {
        NewerIsAsymmetric(s[0], s[m]);
        assert false;
      }
      assert s[0] == t[0];
      forall v ensures v in s[1..] <==> v in t[1..] {
        HeadOnlyOnce(s, v);
        HeadOnlyOnce(t, v);
      }
      SortedIsUnique(s[1..], t[1..]);
      assert s == [s[0]] + s[1..] && t == [t[0]] + t[1..];
    }
  }

  lemma HeadOnlyOnce(s: seq<View>, v: View)
    requires s != [] && NewestFirst(s)
    ensures v in s[1..] <==> v in s && v != s[0]
  {
    if v in s[1..] {
      var k :| 1 <= k < |s| && s[k] == v;
      NewerIsAsymmetric(s[0], s[k]);
    }
  }

  /** The survivors, newest first, are exactly the population's kept set; the losers its complement. */
  lemma SelectionIsKeep(bs: seq<View>, cal: Calendar, p: Policy)
    requires DistinctInput(bs)
    ensures NewestFirst(Survivors(bs, cal, p)) && NewestFirst(Losers(bs, cal, p))
    ensures forall v :: v in Survivors(bs, cal, p) <==> v in Keep(Population(bs), cal, p)
    ensures forall v :: v in Losers(bs, cal, p) <==> v in Population(bs) - Keep(Population(bs), cal, p)
  {
    var order := SortIndices(bs, |bs|);
    var kept := KeptAt(bs, cal, p);
    ChosenSorted(bs, order, kept);
    ChosenSorted(bs, order, Others(bs, kept));
    ChosenElements(bs, order, kept);
    ChosenElements(bs, order, Others(bs, kept));
    forall i: nat | i < |bs| ensures i in kept <==> Kept(Population(bs), cal, p, bs[i]) {
      RuleAgrees(bs, cal, p, i);
    }
    forall v | v in Population(bs)
      ensures v in Survivors(bs, cal, p) <==> v in Keep(Population(bs), cal, p)
      ensures v in Losers(bs, cal, p) <==> v !in Keep(Population(bs), cal, p)
    {
      var i :| 0 <= i < |bs| && bs[i] == v;
      var q := PositionOf(bs, order, i);
      assert bs[order[q]] == v;
    }
  }

  /** Input order is irrelevant: the same population yields the same two lists. */
  lemma InputOrderIsIrrelevant(bs: seq<View>, cs: seq<View>, cal: Calendar, p: Policy)
    requires DistinctInput(bs) && DistinctInput(cs) && Population(bs) == Population(cs)
    ensures Survivors(bs, cal, p) == Survivors(cs, cal, p)
    ensures Losers(bs, cal, p) == Losers(cs, cal, p)
  {
    SelectionIsKeep(bs, cal, p);
    SelectionIsKeep(cs, cal, p);
    SortedIsUnique(Survivors(bs, cal, p), Survivors(cs, cal, p));
    SortedIsUnique(Losers(bs, cal, p), Losers(cs, cal, p));
  }
}
