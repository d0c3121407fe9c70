/** What an accepted expansion guarantees its children, and where the guarantee stops. */
module ExpandFacts {
  import opened Text
  import opened Refs
  import opened SourcePaths
  import opened Naming
  import opened Expand

  /** `Distinct` lists every pair once, in order of first occurrence. */
  lemma {:induction false} DistinctListsOnce(pairs: seq<Pair>)
    ensures forall q :: q in Distinct(pairs) <==> q in pairs
    ensures forall i, j :: 0 <= i < j < |Distinct(pairs)| ==> Distinct(pairs)[i] != Distinct(pairs)[j]
    decreases |pairs|
  {
    if pairs != [] {
      var front := pairs[..|pairs| - 1];
      DistinctListsOnce(front);
      assert forall q :: q in pairs <==> q in front || q == pairs[|pairs| - 1];
    }
  }

  /** The path a child's pin resolves to when the backup runs. */
  function RecordedPath(p: Policy, m: ExpandedMember): Result<Option<string>, Error> {
    IdentitySourcePathIn(p.sources, p.namespace, Some(m.source))
  }

  /** The path the guard checked is the path the child's pin records. */
  lemma GuardedPathIsRecorded(p: Policy, base: string, matched: Matched, pair: Pair)
    requires WellFormed(p) && pair in AllPairs(p, matched)
    ensures pair.index < |p.sources| && RecordedPath(p, MemberFor(p, base, matched, pair)) == Ok(Some(PathOf(p, pair)))
  {
    hide FanoutChildName, GroupName;
    PairsInRange(p, matched, |p.sources|);
    assert p.sources[pair.index] in p.sources;
  }

  /** The members of an accepted expansion. */
  function AcceptedMembers(p: Policy, base: string, matched: Matched): (ms: seq<ExpandedMember>)
    ensures |ms| == |Distinct(AllPairs(p, matched))|
  {
    MembersFor(p, base, matched, Distinct(AllPairs(p, matched)))
  }

  lemma MemberTargets(p: Policy, base: string, matched: Matched, i: nat)
    requires i < |AcceptedMembers(p, base, matched)|
    ensures var q := Distinct(AllPairs(p, matched))[i]; var m := AcceptedMembers(p, base, matched)[i];
            && q in AllPairs(p, matched) && m == MemberFor(p, base, matched, q)
            && m.source.target == q.target && m.source.sourceIndex == q.index && PairOf(m) == q
  {
    hide FanoutChildName, GroupName, AllPairs;
    DistinctListsOnce(AllPairs(p, matched));
    assert Distinct(AllPairs(p, matched))[i] in Distinct(AllPairs(p, matched));
  }

  lemma MembersRecordApart(p: Policy, base: string, matched: Matched, i: nat, j: nat)
    requires WellFormed(p) && InRange(p, AllPairs(p, matched)) && NoCollision(p, AllPairs(p, matched))
    requires i < j < |AcceptedMembers(p, base, matched)|
    ensures var ms := AcceptedMembers(p, base, matched);
            RecordedPath(p, ms[i]).Ok? && RecordedPath(p, ms[i]) != RecordedPath(p, ms[j])
  {
    hide PathOf, NoCollision, RecordedPath, AcceptedMembers, AllPairs, MemberFor;
    var pairs := AllPairs(p, matched);
    var ds := Distinct(pairs);
    MemberTargets(p, base, matched, i);
    MemberTargets(p, base, matched, j);
    DistinctListsOnce(pairs);
    GuardedPathIsRecorded(p, base, matched, ds[i]);
    GuardedPathIsRecorded(p, base, matched, ds[j]);
    NoCollisionAt(p, pairs, ds[i], ds[j]);
  }

  /** An accepted expansion has one member per distinct (source, PVC) pair, and no two members record the same path. */
  lemma AcceptedMembersNeverShareAPath(p: Policy, base: string, matched: Matched)
    requires WellFormed(p) && InRange(p, AllPairs(p, matched)) && NoCollision(p, AllPairs(p, matched))
    ensures var ms := AcceptedMembers(p, base, matched);
            && (forall q :: q in AllPairs(p, matched) <==> exists m :: m in ms && PairOf(m) == q)
            && (forall i, j :: 0 <= i < j < |ms| ==> PairOf(ms[i]) != PairOf(ms[j]))
            && (forall m :: m in ms ==> RecordedPath(p, m).Ok?)
            && (forall i, j :: 0 <= i < j < |ms| ==> RecordedPath(p, ms[i]) != RecordedPath(p, ms[j]))
  {
    hide PathOf, NoCollision, RecordedPath, MemberFor, AllPairs;
    var pairs := AllPairs(p, matched);
    var ds := Distinct(pairs);
    var ms := AcceptedMembers(p, base, matched);
    DistinctListsOnce(pairs);
    MembersListPairs(p, base, matched, ds);
    forall m | m in ms ensures RecordedPath(p, m).Ok? {
      var i :| 0 <= i < |ms| && ms[i] == m;
      MemberTargets(p, base, matched, i);
      GuardedPathIsRecorded(p, base, matched, ds[i]);
    }
    forall i, j | 0 <= i < j < |ms| ensures RecordedPath(p, ms[i]) != RecordedPath(p, ms[j]) {
      MembersRecordApart(p, base, matched, i, j);
    }
  }

  function PairOf(m: ExpandedMember): Pair { Pair(m.source.sourceIndex, m.source.target) }

  lemma MembersListPairs(p: Policy, base: string, matched: Matched, ds: seq<Pair>)
    ensures var ms := MembersFor(p, base, matched, ds);
            && (forall i :: 0 <= i < |ms| ==> PairOf(ms[i]) == ds[i])
            && (forall q :: q in ds <==> exists m :: m in ms && PairOf(m) == q)
  {
    hide FanoutChildName, GroupName;
    var ms := MembersFor(p, base, matched, ds);
    forall q | q in ds ensures exists m :: m in ms && PairOf(m) == q {
      var i :| 0 <= i < |ds| && ds[i] == q;
      assert ms[i] in ms && PairOf(ms[i]) == q;
    }
  }

  lemma NoCollisionAt(p: Policy, pairs: seq<Pair>, a: Pair, b: Pair)
    requires InRange(p, pairs) && NoCollision(p, pairs) && a in pairs && b in pairs && a != b
    ensures a.index < |p.sources| && b.index < |p.sources| && PathOf(p, a) != PathOf(p, b)
  {
    var i :| 0 <= i < |pairs| && pairs[i] == a;
    var j :| 0 <= j < |pairs| && pairs[j] == b;
  }

  predicate PlainTarget(t: PvcTarget) { Plain(t.namespace) && Plain(t.name) }

  /** The default refusal blames `PvcName` and suggests `PvcNamespacedName`: on Kubernetes names that is always the
      cause, and the suggested strategy always separates the two PVCs. */
  lemma SuggestedStrategySeparates(p: Policy, pairs: seq<Pair>, c: Collision)
    requires TrueCollision(p, pairs, c) && c.cause == SharedPvcName
    requires PlainTarget(c.first.target) && PlainTarget(c.second.target)
    ensures StrategyFor(p.sources[c.first.index]) == StrategyFor(p.sources[c.second.index]) == PvcName
    ensures c.first.target.name == c.second.target.name && c.first.target.namespace != c.second.target.namespace
    ensures PvcPath(c.first.target, PvcNamespacedName) != PvcPath(c.second.target, PvcNamespacedName)
  {
    PvcPathCollisions(c.first.target, StrategyFor(p.sources[c.first.index]), c.second.target,
                      StrategyFor(p.sources[c.second.index]));
    PvcPathCollisions(c.first.target, PvcNamespacedName, c.second.target, PvcNamespacedName);
  }

  // --- child names ---------------------------------------------------------------------------

  /** What the tag of a member's child name hashes. */
  function MemberTagInput(base: string, t: PvcTarget): string { TagInput(base, Some((t.namespace, t.name)), None) }

  /** No PVC is listed by two selector sources. */
  ghost predicate ListedOnce(pairs: seq<Pair>) {
    forall q, r :: q in pairs && r in pairs && q.target == r.target ==> q == r
  }

  predicate PlainPairs(pairs: seq<Pair>) { forall q :: q in pairs ==> PlainTarget(q.target) }

  lemma SameTagInputIffSameVolume(base: string, t: PvcTarget, u: PvcTarget)
    requires '\n' !in base && PlainTarget(t) && PlainTarget(u)
    ensures MemberTagInput(base, t) == MemberTagInput(base, u) <==> t == u
  {
    var mt, mu := Some((t.namespace, t.name)), Some((u.namespace, u.name));
    if TagInput(base, mt, None) == TagInput(base, mu, None) {
      TagInputIsInjective(base, mt, None, base, mu, None);
    }
  }

  /** The child name carries no source index: over the members of an expansion, accepted or not, the hashed texts are
      pairwise distinct exactly when no PVC is listed by two sources, and a PVC listed by two gets one name twice. */
  lemma TagsSeparateMembersIff(p: Policy, base: string, matched: Matched)
    requires '\n' !in base && PlainPairs(AllPairs(p, matched))
    ensures var ms := AcceptedMembers(p, base, matched);
            && ((forall i, j :: 0 <= i < j < |ms|
                                ==> MemberTagInput(base, ms[i].source.target)
                                    != MemberTagInput(base, ms[j].source.target))
                <==> ListedOnce(AllPairs(p, matched)))
            && (ListedOnce(AllPairs(p, matched)) || exists i, j :: 0 <= i < j < |ms| && ms[i].name == ms[j].name)
  {
    hide FanoutChildName, GroupName, MemberTagInput, AllPairs;
    var pairs := AllPairs(p, matched);
    var ds := Distinct(pairs);
    var ms := AcceptedMembers(p, base, matched);
    DistinctListsOnce(pairs);
    assert forall i :: 0 <= i < |ds| ==> ds[i] in ds;
    forall i, j | 0 <= i < j < |ms|
      ensures MemberTagInput(base, ms[i].source.target) == MemberTagInput(base, ms[j].source.target)
              <==> ds[i].target == ds[j].target
    {
      SameTagInputIffSameVolume(base, ds[i].target, ds[j].target);
    }
    if !ListedOnce(pairs) {
      var i, j := ListedTwice(pairs);
      assert ms[i].name == ms[j].name;
      assert MemberTagInput(base, ms[i].source.target) == MemberTagInput(base, ms[j].source.target);
    }
  }

  /** Where one PVC appears twice in the expansion. */
  lemma ListedTwice(pairs: seq<Pair>) returns (i: nat, j: nat)
    requires !ListedOnce(pairs)
    ensures i < j < |Distinct(pairs)| && Distinct(pairs)[i].target == Distinct(pairs)[j].target
  {
    var ds := Distinct(pairs);
    DistinctListsOnce(pairs);
    var q, r :| q in pairs && r in pairs && q.target == r.target && q != r;
    var x :| 0 <= x < |ds| && ds[x] == q;
    var y :| 0 <= y < |ds| && ds[y] == r;
    i, j := if x < y then x else y, if x < y then y else x;
  }

  /** A member of the policy's own namespace that fits is called `<base>-pvc-<name>-<tag>`. */
  lemma LocalMemberName(p: Policy, base: string, matched: Matched, pair: Pair)
    requires base != "" && base[0] != '-' && base[|base| - 1] != '-' && pair.target.namespace == p.namespace
    requires IsDns(pair.target.namespace) && IsDns(pair.target.name)
    requires |base| + |pair.target.namespace| + |pair.target.name| <= 41
    ensures MemberFor(p, base, matched, pair).name
            == base + "-pvc-" + pair.target.name + "-" + Fnv8(MemberTagInput(base, pair.target))
  {
    hide FanoutChildName, FanoutChildNameFor, GroupName, Fnv8;
    ShortNamesAreVerbatim(base, p.namespace, pair.target.namespace, pair.target.name,
                          RepositoryRef(Repository, "r", None));
  }

  const BY_NAME: Source := Source(None, true, None, None, None, Some(PvcName), None)
  const BY_NAMESPACE: Source := BY_NAME.(strategy := Some(PvcNamespacedName))
  const TWO_STRATEGIES: Policy := Policy("db", "app", [BY_NAME, BY_NAMESPACE], false, [])
  const DATA: PvcTarget := PvcTarget("db", "data")
  const DATA_TWICE: Matched := map[0 := [DATA], 1 := [DATA]]

  lemma TwoStrategiesPairs()
    ensures AllPairs(TWO_STRATEGIES, DATA_TWICE) == [Pair(0, DATA), Pair(1, DATA)]
  {
    assert Pairs(TWO_STRATEGIES, DATA_TWICE, 0) == [];
    assert SourcePairs(0, [DATA]) == [Pair(0, DATA)];
    assert Pairs(TWO_STRATEGIES, DATA_TWICE, 1) == [Pair(0, DATA)];
    assert SourcePairs(1, [DATA]) == [Pair(1, DATA)];
  }

  /** One PVC under two selectors with different strategies is accepted, yet both children get one name. */
  lemma TwoStrategiesOneName(base: string)
    ensures var pairs := AllPairs(TWO_STRATEGIES, DATA_TWICE);
            && WellFormed(TWO_STRATEGIES) && InRange(TWO_STRATEGIES, pairs) && NoCollision(TWO_STRATEGIES, pairs)
            && Distinct(pairs) == pairs == [Pair(0, DATA), Pair(1, DATA)]
            && MemberFor(TWO_STRATEGIES, base, DATA_TWICE, pairs[0]).name
               == MemberFor(TWO_STRATEGIES, base, DATA_TWICE, pairs[1]).name
  {
    hide FanoutChildName, GroupName, AllPairs;
    TwoStrategiesPairs();
    var pairs := [Pair(0, DATA), Pair(1, DATA)];
    PvcPathCollisions(DATA, PvcName, DATA, PvcNamespacedName);
    assert pairs[..1] == [Pair(0, DATA)] && pairs[..1][..0] == [];
    assert Distinct(pairs[..1]) == [Pair(0, DATA)];
    assert forall s :: s in TWO_STRATEGIES.sources ==> s == BY_NAME || s == BY_NAMESPACE;
  }

  // --- volume groups -----------------------------------------------------------------------------

  lemma {:induction false} CountedTwice(targets: seq<PvcTarget>, t: PvcTarget)
    requires t in targets && forall i, j :: 0 <= i < j < |targets| ==> targets[i] != targets[j]
    ensures CountIn(targets, t.namespace) > 1 <==> exists u :: u in targets && u != t && u.namespace == t.namespace
    decreases |targets|
  {
    var front, last := targets[..|targets| - 1], targets[|targets| - 1];
    assert forall u :: u in targets <==> u in front || u == last;
    if last == t {
      assert t !in front;
      CountedOnce(front, t.namespace);
    } else {
      CountedTwice(front, t);
      CountedOnce(front, t.namespace);
    }
  }

  lemma {:induction false} CountedOnce(targets: seq<PvcTarget>, ns: string)
    ensures CountIn(targets, ns) > 0 <==> exists u :: u in targets && u.namespace == ns
    decreases |targets|
  {
    if targets != [] {
      var front := targets[..|targets| - 1];
      CountedOnce(front, ns);
      assert forall u :: u in targets <==> u in front || u == targets[|targets| - 1];
    }
  }

  lemma {:induction false} PairListed(p: Policy, matched: Matched, n: nat, q: Pair)
    requires n <= |p.sources|
    ensures q in Pairs(p, matched, n)
            <==> q.index < n && p.sources[q.index].pvcSelector && q.target in Listing(matched, q.index)
  {
    if n > 0 {
      PairListed(p, matched, n - 1, q);
      var targets := Listing(matched, n - 1);
      var own := SourcePairs(n - 1, targets);
      if q.index == n - 1 && q.target in targets {
        var i :| 0 <= i < |targets| && targets[i] == q.target;
        assert own[i] == q;
      }
    }
  }

  /** With duplicate-free listings a member carries a group exactly when grouping is on and another member of the same
      source shares its namespace; all of them compute the same group name without talking to each other. */
  lemma GroupedIffShared(p: Policy, base: string, matched: Matched, pair: Pair)
    requires pair in AllPairs(p, matched)
    requires forall i, j :: 0 <= i < j < |Listing(matched, pair.index)|
                            ==> Listing(matched, pair.index)[i] != Listing(matched, pair.index)[j]
    ensures MemberFor(p, base, matched, pair).source.group.Some?
            <==> p.groupByVolumeGroup
                 && exists other :: other in AllPairs(p, matched) && other != pair && other.index == pair.index
                                    && other.target.namespace == pair.target.namespace
    ensures forall other :: other in AllPairs(p, matched) && other.index == pair.index
                            && other.target.namespace == pair.target.namespace
                            ==> MemberFor(p, base, matched, other).source.group
                                == MemberFor(p, base, matched, pair).source.group
  {
    hide FanoutChildName, GroupName;
    var targets := Listing(matched, pair.index);
    PairListed(p, matched, |p.sources|, pair);
    CountedTwice(targets, pair.target);
    if exists u :: u in targets && u != pair.target && u.namespace == pair.target.namespace {
      var u :| u in targets && u != pair.target && u.namespace == pair.target.namespace;
      PairListed(p, matched, |p.sources|, Pair(pair.index, u));
    }
    if exists other :: other in AllPairs(p, matched) && other != pair && other.index == pair.index
                       && other.target.namespace == pair.target.namespace {
      var other :| other in AllPairs(p, matched) && other != pair && other.index == pair.index
                   && other.target.namespace == pair.target.namespace;
      PairListed(p, matched, |p.sources|, other);
    }
  }
}
