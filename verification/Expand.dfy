/** Selector fan-out: one policy against an already matched PVC listing becomes one pinned child per
    (source, PVC), or a refusal when two of them would record the same kopia path. */
module Expand {
  import opened Text
  import opened Refs
  import opened SourcePaths
  import opened Naming

  type Matched = map<nat, seq<PvcTarget>>

  datatype ExpandedMember = ExpandedMember(name: string, source: SourceRef)

  /** A PVC listed by the selector source at `index`. */
  datatype Pair = Pair(index: nat, target: PvcTarget)

  datatype Cause = TwoSelectors | OverrideAt(index: nat) | SharedPvcName

  datatype Collision = Collision(first: Pair, second: Pair, path: string, cause: Cause)

  function Listing(matched: Matched, index: nat): seq<PvcTarget> {
    if index in matched then matched[index] else []
  }

  /** The pairs of one source's listing, in listing order. */
  function SourcePairs(index: nat, targets: seq<PvcTarget>): (r: seq<Pair>)
    ensures |r| == |targets|
  {
    seq(|targets|, i requires 0 <= i < |targets| => Pair(index, targets[i]))
  }

  /** Every pair of the first `n` sources, in source then listing order. */
  function Pairs(p: Policy, matched: Matched, n: nat): seq<Pair>
    requires n <= |p.sources|
  {
    if n == 0 then []
    else Pairs(p, matched, n - 1)
         + (if p.sources[n - 1].pvcSelector then SourcePairs(n - 1, Listing(matched, n - 1)) else [])
  }

  function AllPairs(p: Policy, matched: Matched): seq<Pair> { Pairs(p, matched, |p.sources|) }

  /** The path a pair's child records. */
  function PathOf(p: Policy, pair: Pair): string
    requires pair.index < |p.sources|
  {
    var s := p.sources[pair.index];
    if s.pathOverride.Some? then s.pathOverride.value else PvcPath(pair.target, StrategyFor(s))
  }

  predicate InRange(p: Policy, pairs: seq<Pair>) {
    forall i :: 0 <= i < |pairs| ==> pairs[i].index < |p.sources|
  }

  /** No two distinct pairs share a path. */
  predicate NoCollision(p: Policy, pairs: seq<Pair>)
    requires InRange(p, pairs)
  {
    forall i, j :: 0 <= i < |pairs| && 0 <= j < |pairs| && PathOf(p, pairs[i]) == PathOf(p, pairs[j])
                   ==> pairs[i] == pairs[j]
  }

  /** First occurrences, in order. */
  function Distinct(pairs: seq<Pair>): seq<Pair> {
    if pairs == [] then []
    else
      var front, last := pairs[..|pairs| - 1], pairs[|pairs| - 1];
      if last in front then Distinct(front) else Distinct(front) + [last]
  }

  /** How many listed PVCs live in `namespace`. */
  function CountIn(targets: seq<PvcTarget>, namespace: string): nat {
    if targets == [] then 0
    else CountIn(targets[..|targets| - 1], namespace) + (if targets[|targets| - 1].namespace == namespace then 1 else 0)
  }

  function MemberFor(p: Policy, base: string, matched: Matched, pair: Pair): ExpandedMember {
    var t := pair.target;
    var group :=
      if p.groupByVolumeGroup && CountIn(Listing(matched, pair.index), t.namespace) > 1
      then Some(SourceGroup(t.namespace, GroupName(base, t.namespace, pair.index, None))) else None;
    ExpandedMember(FanoutChildName(base, p.namespace, t.namespace, t.name), SourceRef(pair.index, t, group))
  }

  function MembersFor(p: Policy, base: string, matched: Matched, pairs: seq<Pair>): (r: seq<ExpandedMember>)
    ensures |r| == |pairs|
  {
    seq(|pairs|, i requires 0 <= i < |pairs| => MemberFor(p, base, matched, pairs[i]))
  }

  /** A collision report that names two listed pairs and the reason they clash. */
  predicate TrueCollision(p: Policy, pairs: seq<Pair>, c: Collision) {
    && c.first in pairs && c.second in pairs && c.first != c.second
    && c.first.index < |p.sources| && c.second.index < |p.sources|
    && PathOf(p, c.first) == PathOf(p, c.second) == c.path
    && (c.cause == TwoSelectors <==> c.first.target == c.second.target)
    && (c.cause.OverrideAt? ==> c.cause.index < |p.sources| && p.sources[c.cause.index].pathOverride == Some(c.path)
                                && c.cause.index in {c.first.index, c.second.index})
    && (c.cause == SharedPvcName
        ==> p.sources[c.first.index].pathOverride.None? && p.sources[c.second.index].pathOverride.None?)
  }

  lemma {:induction false} PairsInRange(p: Policy, matched: Matched, n: nat)
    requires n <= |p.sources|
    ensures forall q :: q in Pairs(p, matched, n) ==> q.index < n && p.sources[q.index].pvcSelector
    ensures InRange(p, Pairs(p, matched, n))
  {
    if n > 0 {
      PairsInRange(p, matched, n - 1);
    }
  }

  /** The `per_group` tally: listed PVCs per (namespace, selector source). */
  method CountGroups(p: Policy, matched: Matched) returns (perGroup: map<(string, nat), nat>)
    ensures forall ns, i: nat :: (ns, i) in perGroup
                            ==> i < |p.sources| && p.sources[i].pvcSelector
                                && perGroup[(ns, i)] == CountIn(Listing(matched, i), ns)
    ensures forall ns, i: nat :: i < |p.sources| && p.sources[i].pvcSelector && (ns, i) !in perGroup
                                 ==> CountIn(Listing(matched, i), ns) == 0
  {
    perGroup := map[];
    for index := 0 to |p.sources|
      invariant forall ns, i: nat :: (ns, i) in perGroup
                                ==> i < index && p.sources[i].pvcSelector
                                    && perGroup[(ns, i)] == CountIn(Listing(matched, i), ns)
      invariant forall ns, i: nat :: i < index && p.sources[i].pvcSelector && (ns, i) !in perGroup
                                     ==> CountIn(Listing(matched, i), ns) == 0
    {
      if !p.sources[index].pvcSelector {
        continue;
      }
      var targets := Listing(matched, index);
      for k := 0 to |targets|
        invariant forall ns, i: nat :: (ns, i) in perGroup ==> i <= index && p.sources[i].pvcSelector
        invariant forall ns, i: nat :: (ns, i) in perGroup && i < index
                                       ==> perGroup[(ns, i)] == CountIn(Listing(matched, i), ns)
        invariant forall ns, i: nat :: i < index && p.sources[i].pvcSelector && (ns, i) !in perGroup
                                       ==> CountIn(Listing(matched, i), ns) == 0
        invariant forall ns :: (ns, index) in perGroup ==> perGroup[(ns, index)] == CountIn(targets[..k], ns)
        invariant forall ns :: (ns, index) !in perGroup ==> CountIn(targets[..k], ns) == 0
      {
        assert targets[..k + 1][..k] == targets[..k];
        var key := (targets[k].namespace, index);
        perGroup := perGroup[key := (if key in perGroup then perGroup[key] else 0) + 1];
      }
      assert targets[..|targets|] == targets;
    }
  }

  /** Selector expansion. `Ok(None)` means no selector at all; an empty list means a selector matched nothing.
      With a selector it accepts exactly when no two distinct (source, PVC) pairs share a path, and then emits one
      member per distinct pair in source then listing order. */
  method ExpandSources(
    p: Policy, base: string, matched: Matched) returns (r: Result<Option<seq<ExpandedMember>>, Collision>)
    ensures InRange(p, AllPairs(p, matched))
    ensures r == Ok(None) <==> !HasSelector(p)
    ensures HasSelector(p) ==> (r.Ok? <==> NoCollision(p, AllPairs(p, matched)))
    ensures r.Ok? && r.value.Some? ==> r.value.value == MembersFor(p, base, matched, Distinct(AllPairs(p, matched)))
    ensures r.Err? ==> TrueCollision(p, AllPairs(p, matched), r.error)
  {
    hide FanoutChildName, GroupName;
    PairsInRange(p, matched, |p.sources|);
    if !HasSelector(p) {
      return Ok(None);
    }
    var members: seq<ExpandedMember> := [];
    var paths: map<string, Pair> := map[];
    var perGroup: map<(string, nat), nat> := map[];
    if p.groupByVolumeGroup {
      perGroup := CountGroups(p, matched);
    }
    for index := 0 to |p.sources|
      invariant Progress(p, base, matched, Pairs(p, matched, index), members, paths)
    {
      if !p.sources[index].pvcSelector {
        assert Pairs(p, matched, index + 1) == Pairs(p, matched, index);
        continue;
      }
      var clash;
      members, paths, clash := ExpandSource(p, base, matched, index, perGroup, members, paths);
      if clash.Some? {
        TrueCollisionCollides(p, AllPairs(p, matched), clash.value);
        return Err(clash.value);
      }
    }
    r := Ok(Some(members));
  }

  lemma TrueCollisionCollides(p: Policy, pairs: seq<Pair>, c: Collision)
    requires InRange(p, pairs) && TrueCollision(p, pairs, c)
    ensures !NoCollision(p, pairs)
  {
    var i :| 0 <= i < |pairs| && pairs[i] == c.first;
    var j :| 0 <= j < |pairs| && pairs[j] == c.second;
  }

  /** The inner loop: one selector source's listing. */
  method ExpandSource(
    p: Policy, base: string, matched: Matched, index: nat, perGroup: map<(string, nat), nat>,
    members0: seq<ExpandedMember>, paths0: map<string, Pair>)
    returns (members: seq<ExpandedMember>, paths: map<string, Pair>, clash: Option<Collision>)
    requires index < |p.sources| && p.sources[index].pvcSelector
    requires p.groupByVolumeGroup ==> forall ns :: CountIn(Listing(matched, index), ns)
                                                   == if (ns, index) in perGroup then perGroup[(ns, index)] else 0
    requires Progress(p, base, matched, Pairs(p, matched, index), members0, paths0)
    ensures clash.None? ==> Progress(p, base, matched, Pairs(p, matched, index + 1), members, paths)
    ensures clash.Some? ==> TrueCollision(p, AllPairs(p, matched), clash.value)
  {
    hide FanoutChildName, GroupName, CountIn, Progress, TrueCollision, AllPairs, PvcPath, StrategyFor;
    members, paths, clash := members0, paths0, None;
    var targets := Listing(matched, index);
    ghost var before := Pairs(p, matched, index);
    ghost var done := before;
    assert done == before + SourcePairs(index, targets[..0]);
    for k := 0 to |targets|
      invariant done == before + SourcePairs(index, targets[..k])
      invariant Progress(p, base, matched, done, members, paths)
    {
      var pair := Pair(index, targets[k]);
      var path := PathOf(p, pair);
      assert done + [pair] == before + SourcePairs(index, targets[..k + 1]);
      if path in paths {
        var prev := paths[path];
        KnownPath(p, base, matched, done, members, paths, path);
        if prev != pair {
          var cause := if prev.target == pair.target then TwoSelectors
                       else if p.sources[index].pathOverride == Some(path) then OverrideAt(index)
                       else if p.sources[prev.index].pathOverride == Some(path) then OverrideAt(prev.index)
                       else SharedPvcName;
          clash := Some(Collision(prev, pair, path, cause));
          PairsPrefix(p, matched, index, targets, k);
          assert prev in done + [pair] && pair in done + [pair];
          ClashIsTrue(p, AllPairs(p, matched), clash.value);
          return;
        }
        RepeatKeepsProgress(p, base, matched, done, members, paths, pair);
      } else {
        var ns := targets[k].namespace;
        var count := if (ns, index) in perGroup then perGroup[(ns, index)] else 0;
        var group := if p.groupByVolumeGroup && count > 1
                     then Some(SourceGroup(ns, GroupName(base, ns, index, None))) else None;
        var member := ExpandedMember(FanoutChildName(base, p.namespace, ns, targets[k].name),
                                     SourceRef(index, targets[k], group));
        assert member == MemberFor(p, base, matched, pair);
        NewPairKeepsProgress(p, base, matched, done, members, paths, pair);
        members := members + [member];
        paths := paths[path := pair];
      }
      done := done + [pair];
    }
    assert targets[..|targets|] == targets;
  }

  /** What both loops keep: the pairs seen so far are collision free, `paths` indexes them, `members` lists them
      once. */
  ghost predicate Progress(
    p: Policy, base: string, matched: Matched, done: seq<Pair>, members: seq<ExpandedMember>, paths: map<string, Pair>)
  {
    && InRange(p, done) && NoCollision(p, done)
    && members == MembersFor(p, base, matched, Distinct(done))
    && (forall path :: path in paths
                       ==> paths[path] in done && paths[path].index < |p.sources| && PathOf(p, paths[path]) == path)
    && (forall i :: 0 <= i < |done| ==> PathOf(p, done[i]) in paths)
  }

  lemma KnownPath(
    p: Policy, base: string, matched: Matched, done: seq<Pair>, members: seq<ExpandedMember>, paths: map<string, Pair>,
    path: string)
    requires Progress(p, base, matched, done, members, paths) && path in paths
    ensures paths[path] in done && paths[path].index < |p.sources| && PathOf(p, paths[path]) == path
  {
  }

  lemma ClashIsTrue(p: Policy, pairs: seq<Pair>, c: Collision)
    requires c.first in pairs && c.second in pairs && c.first != c.second
    requires c.first.index < |p.sources| && c.second.index < |p.sources|
    requires PathOf(p, c.first) == PathOf(p, c.second) == c.path
    requires c.cause == if c.first.target == c.second.target then TwoSelectors
                        else if p.sources[c.second.index].pathOverride == Some(c.path) then OverrideAt(c.second.index)
                        else if p.sources[c.first.index].pathOverride == Some(c.path) then OverrideAt(c.first.index)
                        else SharedPvcName
    ensures TrueCollision(p, pairs, c)
  {
  }

  lemma RepeatKeepsProgress(
    p: Policy, base: string, matched: Matched, done: seq<Pair>, members: seq<ExpandedMember>, paths: map<string, Pair>,
    pair: Pair)
    requires Progress(p, base, matched, done, members, paths) && pair in done && pair.index < |p.sources|
    ensures Progress(p, base, matched, done + [pair], members, paths)
  {
    var next := done + [pair];
    assert next[..|next| - 1] == done;
    var k :| 0 <= k < |done| && done[k] == pair;
    assert forall i :: 0 <= i < |next| ==> next[i] in done;
  }

  lemma NewPairKeepsProgress(
    p: Policy, base: string, matched: Matched, done: seq<Pair>, members: seq<ExpandedMember>, paths: map<string, Pair>,
    pair: Pair)
    requires Progress(p, base, matched, done, members, paths) && pair.index < |p.sources| && PathOf(p, pair) !in paths
    ensures Progress(p, base, matched, done + [pair],
                     members + [MemberFor(p, base, matched, pair)], paths[PathOf(p, pair) := pair])
  {
    hide FanoutChildName, GroupName;
    var next := done + [pair];
    assert next[..|next| - 1] == done;
    assert pair !in done;
    assert Distinct(next) == Distinct(done) + [pair];
    assert MembersFor(p, base, matched, Distinct(next)) == members + [MemberFor(p, base, matched, pair)];
  }

  lemma {:induction false} PairsGrow(p: Policy, matched: Matched, m: nat, n: nat)
    requires m <= n <= |p.sources|
    ensures Pairs(p, matched, m) <= Pairs(p, matched, n)
    decreases n
  {
    if m < n {
      PairsGrow(p, matched, m, n - 1);
    }
  }

  /** What the loops have seen, including the pair at hand, is a part of the whole listing. */
  lemma PairsPrefix(p: Policy, matched: Matched, index: nat, targets: seq<PvcTarget>, k: nat)
    requires index < |p.sources| && p.sources[index].pvcSelector && targets == Listing(matched, index) && k < |targets|
    ensures forall q :: q in Pairs(p, matched, index) + SourcePairs(index, targets[..k + 1])
                        ==> q in AllPairs(p, matched)
  {
    PairsGrow(p, matched, index + 1, |p.sources|);
    var seen := Pairs(p, matched, index + 1);
    assert seen == Pairs(p, matched, index) + SourcePairs(index, targets);
    assert SourcePairs(index, targets[..k + 1]) <= SourcePairs(index, targets);
    assert forall q :: q in seen ==> q in AllPairs(p, matched);
  }
}
