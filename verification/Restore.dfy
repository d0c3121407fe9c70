/** The restore side: which of a policy's kopia paths fills this PVC. */
module Restore {
  import opened Text
  import opened Refs
  import opened SourcePaths
  import opened Expand
  import opened ExpandFacts

  datatype RestoreSourcePath =
    | Override(path: string)
    | PolicySource(own: Option<string>)
    | DerivedFromTarget(derived: string)

  /** The restore classification of a source; a malformed source contributes nothing. */
  datatype RestoreShape =
    | Pvc(name: string)
    | Selector(strategy: Strategy, pathOverride: Option<string>)
    | Nfs
    | Stream
    | Invalid

  function RestoreShapeOf(s: Source): RestoreShape {
    match ShapeOf(s)
    case Ok(SelectorShape) => Selector(StrategyFor(s), s.pathOverride)
    case Ok(PvcShape(name)) => Pvc(name)
    case Ok(NfsShape(_)) => Nfs
    case Ok(StreamShape(_)) => Stream
    case Err(_) => Invalid
  }

  function Shapes(p: Policy): (r: seq<RestoreShape>)
    ensures |r| == |p.sources|
    ensures forall i :: 0 <= i < |r| ==> r[i] == RestoreShapeOf(p.sources[i])
  {
    seq(|p.sources|, i requires 0 <= i < |p.sources| => RestoreShapeOf(p.sources[i]))
  }

  /** The first plain `pvc:` source naming the target in the policy's own namespace. */
  predicate PlainMatch(p: Policy, target: PvcTarget, i: nat) {
    && p.namespace == target.namespace && i < |p.sources| && RestoreShapeOf(p.sources[i]) == Pvc(target.name)
    && forall j :: 0 <= j < i ==> RestoreShapeOf(p.sources[j]) != Pvc(target.name)
  }

  predicate NamedByPlainSource(p: Policy, target: PvcTarget) {
    p.namespace == target.namespace && exists s :: s in p.sources && RestoreShapeOf(s) == Pvc(target.name)
  }

  predicate IsSelector(s: Source) { RestoreShapeOf(s).Selector? }

  predicate AnySelector(p: Policy) { exists s :: s in p.sources && IsSelector(s) }

  /** Every selector source derives member paths the same way. */
  predicate SelectorsAgree(p: Policy) {
    forall s, t :: s in p.sources && t in p.sources && IsSelector(s) && IsSelector(t)
                   ==> RestoreShapeOf(s) == RestoreShapeOf(t)
  }

  /** The path of the policy's own plain source at `i`. */
  function OwnPath(p: Policy, target: PvcTarget, i: nat): string
    requires i < |p.sources|
  {
    p.sources[i].pathOverride.GetOr(PvcPath(target, PvcName))
  }

  /** The rule the restore follows, case by case. */
  ghost predicate Answers(
    p: Policy, pathOverride: Option<string>, target: PvcTarget, r: Result<RestoreSourcePath, Error>)
  {
    if pathOverride.Some? then r == Ok(Override(pathOverride.value))
    else if NamedByPlainSource(p, target) then
      exists i :: PlainMatch(p, target, i) && r == Ok(PolicySource(Some(OwnPath(p, target, i))))
    else if !AnySelector(p) then
      if p.sources == [] then r == Ok(PolicySource(None))
      else if ShapeOf(p.sources[0]).Err? then r == Err(MalformedSourcePath)
      else
        var own := IdentitySourcePathIn(p.sources, p.namespace, None);
        own.Ok? && r == Ok(PolicySource(own.value))
    else if SelectorsAgree(p) && (forall s :: s in p.sources && IsSelector(s) ==> s.pathOverride.None?) then
      exists s :: s in p.sources && IsSelector(s) && r == Ok(DerivedFromTarget(PvcPath(target, StrategyFor(s))))
    else r == Err(AmbiguousSourcePath)
  }

  method FirstPlain(p: Policy, shapes: seq<RestoreShape>, name: string) returns (i: nat)
    requires shapes == Shapes(p)
    ensures i <= |p.sources|
    ensures i < |p.sources| ==> RestoreShapeOf(p.sources[i]) == Pvc(name)
    ensures forall j :: 0 <= j < i ==> RestoreShapeOf(p.sources[j]) != Pvc(name)
  {
    i := 0;
    while i < |shapes| && shapes[i] != Pvc(name)
      invariant i <= |shapes|
      invariant forall j :: 0 <= j < i ==> RestoreShapeOf(p.sources[j]) != Pvc(name)
    {
      i := i + 1;
    }
  }

  method RestorePath(
    p: Policy, pathOverride: Option<string>, target: PvcTarget) returns (r: Result<RestoreSourcePath, Error>)
    ensures Answers(p, pathOverride, target, r)
  {
    if pathOverride.Some? {
      return Ok(Override(pathOverride.value));
    }
    var shapes := Shapes(p);
    if p.namespace == target.namespace {
      var index := FirstPlain(p, shapes, target.name);
      if index < |p.sources| {
        var source := p.sources[index];
        var eff := EffectiveSource(index, Some(target), None, None, source.pathOverride, source.readOnly.GetOr(true));
        assert PlainMatch(p, target, index);
        return Ok(PolicySource(eff.KopiaSourcePath(StrategyFor(source))));
      }
    }
    assert !NamedByPlainSource(p, target);
    if !exists i :: 0 <= i < |shapes| && shapes[i].Selector? {
      assert !AnySelector(p);
      if p.sources == [] {
        return Ok(PolicySource(None));
      }
      if shapes[0] == Invalid {
        return Err(MalformedSourcePath);
      }
      var eff := EffectiveSourceIn(p.sources, p.namespace, None);
      return Ok(PolicySource(eff.value.KopiaSourcePath(StrategyFor(p.sources[0]))));
    }
    r := AgreedPath(p, shapes, target);
  }

  /** The fold over selector sources: the one (strategy, override) they agree on, or a refusal. */
  method AgreedShape(shapes: seq<RestoreShape>) returns (agreed: Option<RestoreShape>)
    requires exists i :: 0 <= i < |shapes| && shapes[i].Selector?
    ensures agreed.Some? ==> agreed.value.Selector? && agreed.value in shapes
                             && forall t :: t in shapes && t.Selector? ==> t == agreed.value
    ensures agreed.None? ==> exists a, b :: a in shapes && b in shapes && a.Selector? && b.Selector? && a != b
  {
    agreed := None;
    for i := 0 to |shapes|
      invariant agreed.Some? ==> agreed.value.Selector? && exists j :: 0 <= j < i && shapes[j] == agreed.value
      invariant forall j :: 0 <= j < i && shapes[j].Selector? ==> agreed == Some(shapes[j])
    {
      if shapes[i].Selector? {
        if agreed.None? {
          agreed := Some(shapes[i]);
        } else if agreed.value != shapes[i] {
          assert agreed.value in shapes && shapes[i] in shapes;
          return None;
        }
      }
    }
  }

  lemma SelectorShapeOf(s: Source)
    requires IsSelector(s)
    ensures RestoreShapeOf(s) == Selector(StrategyFor(s), s.pathOverride)
  {
  }

  /** One shape for every selector source: they agree, on its strategy and override. */
  lemma Agreement(p: Policy, shape: RestoreShape)
    requires shape.Selector? && shape in Shapes(p) && forall t :: t in Shapes(p) && t.Selector? ==> t == shape
    ensures AnySelector(p) && SelectorsAgree(p)
    ensures forall s :: s in p.sources && IsSelector(s)
                        ==> StrategyFor(s) == shape.strategy && s.pathOverride == shape.pathOverride
  {
    hide RestoreShapeOf, StrategyFor;
    forall s | s in p.sources && IsSelector(s)
      ensures RestoreShapeOf(s) == shape == Selector(StrategyFor(s), s.pathOverride)
    {
      var i :| 0 <= i < |p.sources| && p.sources[i] == s;
      assert Shapes(p)[i] in Shapes(p);
      SelectorShapeOf(s);
    }
    var i :| 0 <= i < |p.sources| && Shapes(p)[i] == shape;
    assert p.sources[i] in p.sources;
  }

  lemma Disagreement(p: Policy, a: RestoreShape, b: RestoreShape)
    requires a in Shapes(p) && b in Shapes(p) && a.Selector? && b.Selector? && a != b
    ensures AnySelector(p) && !SelectorsAgree(p)
  {
    hide RestoreShapeOf;
    var i :| 0 <= i < |p.sources| && Shapes(p)[i] == a;
    var j :| 0 <= j < |p.sources| && Shapes(p)[j] == b;
    assert p.sources[i] in p.sources && p.sources[j] in p.sources;
  }

  method AgreedPath(
    p: Policy, shapes: seq<RestoreShape>, target: PvcTarget) returns (r: Result<RestoreSourcePath, Error>)
    requires shapes == Shapes(p) && exists i :: 0 <= i < |shapes| && shapes[i].Selector?
    ensures AnySelector(p)
    ensures if SelectorsAgree(p) && (forall s :: s in p.sources && IsSelector(s) ==> s.pathOverride.None?) then
              exists s :: s in p.sources && IsSelector(s) && r == Ok(DerivedFromTarget(PvcPath(target, StrategyFor(s))))
            else r == Err(AmbiguousSourcePath)
  {
    hide RestoreShapeOf, PvcPath, StrategyFor, SelectorsAgree, IsSelector, Shapes;
    var agreed := AgreedShape(shapes);
    if agreed.None? {
      var a, b :| a in shapes && b in shapes && a.Selector? && b.Selector? && a != b;
      Disagreement(p, a, b);
      return Err(AmbiguousSourcePath);
    }
    Agreement(p, agreed.value);
    if agreed.value.pathOverride.Some? {
      return Err(AmbiguousSourcePath);
    }
    var eff := EffectiveSource(0, Some(target), None, None, None, true);
    r := Ok(DerivedFromTarget(eff.KopiaSourcePath(agreed.value.strategy).value));
  }

  /** No cross-volume restore: filling a member PVC that no plain source of the policy's namespace names, without an
      override, either fails closed or reads exactly the path that member's child records, which no other member of
      the accepted expansion records. */
  lemma NoCrossVolumeRestore(p: Policy, base: string, matched: Matched, pair: Pair, r: Result<RestoreSourcePath, Error>)
    requires WellFormed(p) && InRange(p, AllPairs(p, matched)) && NoCollision(p, AllPairs(p, matched))
    requires pair in AllPairs(p, matched) && !NamedByPlainSource(p, pair.target)
    requires Answers(p, None, pair.target, r)
    ensures r == Err(AmbiguousSourcePath)
            || (r.Ok? && r.value.DerivedFromTarget?
                && RecordedPath(p, MemberFor(p, base, matched, pair)) == Ok(Some(r.value.derived))
                && forall other :: other in AllPairs(p, matched) && other != pair
                                   ==> RecordedPath(p, MemberFor(p, base, matched, other)) != Ok(Some(r.value.derived)))
  {
    hide RecordedPath, MemberFor;
    PairsInRange(p, matched, |p.sources|);
    var source := p.sources[pair.index];
    assert source in p.sources && IsSelector(source);
    GuardedPathIsRecorded(p, base, matched, pair);
    if r.Ok? {
      var s :| s in p.sources && IsSelector(s) && r == Ok(DerivedFromTarget(PvcPath(pair.target, StrategyFor(s))));
      assert RestoreShapeOf(s) == RestoreShapeOf(source);
      assert r.value.derived == PathOf(p, pair);
      forall other | other in AllPairs(p, matched) && other != pair
        ensures RecordedPath(p, MemberFor(p, base, matched, other)) != Ok(Some(r.value.derived))
      {
        GuardedPathIsRecorded(p, base, matched, other);
        NoCollisionAt(p, AllPairs(p, matched), pair, other);
      }
    }
  }

  /** A selector policy refuses exactly when its selectors disagree or flatten their members onto one override. */
  lemma RefusesIffAmbiguous(p: Policy, target: PvcTarget, r: Result<RestoreSourcePath, Error>)
    requires AnySelector(p) && !NamedByPlainSource(p, target) && Answers(p, None, target, r)
    ensures r.Err? <==> exists s, t :: s in p.sources && t in p.sources && IsSelector(s) && IsSelector(t)
                                       && (StrategyFor(s) != StrategyFor(t) || s.pathOverride.Some?)
  {
    if r.Ok? {
      assert SelectorsAgree(p);
    } else if SelectorsAgree(p) {
      var s :| s in p.sources && IsSelector(s) && s.pathOverride.Some?;
    } else {
      var s, t :| s in p.sources && t in p.sources && IsSelector(s) && IsSelector(t)
          && RestoreShapeOf(s) != RestoreShapeOf(t);
      assert StrategyFor(s) != StrategyFor(t) || s.pathOverride.Some? || t.pathOverride.Some?;
    }
  }

  /** Every refusal, for every policy: never under an override, never for a target a plain source names; with
      selectors exactly when ambiguous, without any exactly when the first source is malformed. An override decides
      alone, and no plain source answers for a PVC of another namespace. */
  lemma RefusesIff(p: Policy, pathOverride: Option<string>, target: PvcTarget, r: Result<RestoreSourcePath, Error>)
    requires Answers(p, pathOverride, target, r)
    ensures pathOverride.Some? ==> r == Ok(Override(pathOverride.value))
    ensures r == Err(AmbiguousSourcePath)
            <==> pathOverride.None? && !NamedByPlainSource(p, target) && AnySelector(p)
                 && exists s, t :: s in p.sources && t in p.sources && IsSelector(s) && IsSelector(t)
                                   && (StrategyFor(s) != StrategyFor(t) || s.pathOverride.Some?)
    ensures r == Err(MalformedSourcePath)
            <==> pathOverride.None? && !NamedByPlainSource(p, target) && !AnySelector(p)
                 && p.sources != [] && ShapeOf(p.sources[0]).Err?
    ensures r.Err? ==> r.error in {AmbiguousSourcePath, MalformedSourcePath}
    ensures pathOverride.None? && p.sources == [] ==> r == Ok(PolicySource(None))
    ensures pathOverride.None? && target.namespace != p.namespace && AnySelector(p)
            ==> !(r.Ok? && r.value.PolicySource?)
  {
    if pathOverride.None? && !NamedByPlainSource(p, target) && AnySelector(p) {
      hide ShapeOf, StrategyFor;
      RefusesIffAmbiguous(p, target, r);
    } else {
      hide StrategyFor;
    }
  }

  /** The path a restore filters kopia snapshots by. */
  function PathToRead(r: RestoreSourcePath): Option<string> {
    match r
    case Override(p) => Some(p)
    case DerivedFromTarget(p) => Some(p)
    case PolicySource(p) => p
  }

  /** When the plain source at `i`, which names `target`, sends its restore to the path of this member. */
  predicate LeadsTo(p: Policy, target: PvcTarget, i: nat, member: Pair)
    requires i < |p.sources| && member.index < |p.sources|
  {
    var plain, selector := p.sources[i].pathOverride, p.sources[member.index].pathOverride;
    var strategy := StrategyFor(p.sources[member.index]);
    // the selector's override spells the path the plain source reads
    || selector == Some(OwnPath(p, target, i))
    // the plain source's override spells the member's derived path
    || (selector.None? && plain == Some(PvcPath(member.target, strategy)))
    // a PVC of the same name in any namespace, neither overridden
    || (selector.None? && plain.None? && strategy == PvcName && member.target.name == target.name)
  }

  /** The restore is filled from the path this member's child records. */
  ghost predicate Reads(p: Policy, base: string, matched: Matched, r: Result<RestoreSourcePath, Error>, member: Pair) {
    && member in AllPairs(p, matched)
    && r.Ok? && RecordedPath(p, MemberFor(p, base, matched, member)) == Ok(PathToRead(r.value))
  }

  /** A restore of one member reads the path of another volume. */
  ghost predicate ReadsOther(
    p: Policy, base: string, matched: Matched, pair: Pair, r: Result<RestoreSourcePath, Error>, other: Pair)
  {
    other.target != pair.target && Reads(p, base, matched, r, other)
  }

  lemma LeadsToIff(p: Policy, target: PvcTarget, i: nat, member: Pair)
    requires i < |p.sources| && member.index < |p.sources|
    requires PlainTarget(target) && PlainTarget(member.target)
    ensures OwnPath(p, target, i) == PathOf(p, member) <==> LeadsTo(p, target, i, member)
  {
    PvcPathCollisions(target, PvcName, member.target, StrategyFor(p.sources[member.index]));
  }

  /** A target a plain source names is filled from a member's path exactly when that source leads there. */
  lemma PlainSourceReads(
    p: Policy, base: string, matched: Matched, target: PvcTarget, r: Result<RestoreSourcePath, Error>, member: Pair)
    requires WellFormed(p) && member in AllPairs(p, matched) && PlainTarget(target) && PlainTarget(member.target)
    requires NamedByPlainSource(p, target) && Answers(p, None, target, r)
    ensures member.index < |p.sources|
    ensures Reads(p, base, matched, r, member)
            <==> exists i: nat :: PlainMatch(p, target, i) && LeadsTo(p, target, i, member)
  {
    hide RecordedPath, MemberFor, LeadsTo, PathOf, ShapeOf, RestoreShapeOf, AllPairs;
    GuardedPathIsRecorded(p, base, matched, member);
    var i: nat :| PlainMatch(p, target, i) && r == Ok(PolicySource(Some(OwnPath(p, target, i))));
    LeadsToIff(p, target, i, member);
  }

  /** Which restores read another volume: over an accepted expansion, a member is filled from another volume's path if
      and only if a plain source names it and, by an override or a same-named PVC elsewhere, leads there. */
  lemma ReadsOtherIff(
    p: Policy, base: string, matched: Matched, pair: Pair, r: Result<RestoreSourcePath, Error>, other: Pair)
    requires WellFormed(p) && InRange(p, AllPairs(p, matched)) && NoCollision(p, AllPairs(p, matched))
    requires pair in AllPairs(p, matched) && Answers(p, None, pair.target, r)
    requires other in AllPairs(p, matched) && other.target != pair.target
    requires PlainTarget(pair.target) && PlainTarget(other.target)
    ensures other.index < |p.sources|
    ensures ReadsOther(p, base, matched, pair, r, other)
            <==> exists i: nat :: PlainMatch(p, pair.target, i) && LeadsTo(p, pair.target, i, other)
  {
    hide RecordedPath, MemberFor, LeadsTo, PathOf, NoCollision, ShapeOf, RestoreShapeOf, AllPairs;
    GuardedPathIsRecorded(p, base, matched, other);
    if NamedByPlainSource(p, pair.target) {
      PlainSourceReads(p, base, matched, pair.target, r, other);
    } else {
      NoCrossVolumeRestore(p, base, matched, pair, r);
      forall i: nat ensures !PlainMatch(p, pair.target, i) {
        if PlainMatch(p, pair.target, i) {
          MatchedIsNamed(p, pair.target, i);
        }
      }
    }
  }

  /** Which restores read their own backup: over an accepted expansion, a member no plain source names is filled from
      its own recorded path exactly unless the restore is refused; a member a plain source names, exactly when that
      source leads there. */
  lemma ReadsOwnIff(p: Policy, base: string, matched: Matched, pair: Pair, r: Result<RestoreSourcePath, Error>)
    requires WellFormed(p) && InRange(p, AllPairs(p, matched)) && NoCollision(p, AllPairs(p, matched))
    requires pair in AllPairs(p, matched) && Answers(p, None, pair.target, r) && PlainTarget(pair.target)
    ensures pair.index < |p.sources|
    ensures Reads(p, base, matched, r, pair)
            <==> if NamedByPlainSource(p, pair.target)
                 then exists i: nat :: PlainMatch(p, pair.target, i) && LeadsTo(p, pair.target, i, pair)
                 else r.Ok?
  {
    hide RecordedPath, MemberFor, LeadsTo, PathOf, NoCollision, ShapeOf, RestoreShapeOf, AllPairs;
    GuardedPathIsRecorded(p, base, matched, pair);
    if NamedByPlainSource(p, pair.target) {
      PlainSourceReads(p, base, matched, pair.target, r, pair);
    } else {
      NoCrossVolumeRestore(p, base, matched, pair, r);
    }
  }

  /** Without a selector a restore reads exactly what the unpinned backup of the policy records, unless a plain source
      other than the first names the target and its own path is another. */
  lemma UnpinnedRestoreIff(p: Policy, target: PvcTarget, r: Result<RestoreSourcePath, Error>)
    requires p.sources != [] && ShapeOf(p.sources[0]).Ok? && !AnySelector(p) && Answers(p, None, target, r)
    ensures var recorded := IdentitySourcePathIn(p.sources, p.namespace, None);
            && recorded.Ok? && recorded.value.Some?
            && (r == Ok(PolicySource(recorded.value))
                <==> forall i: nat :: PlainMatch(p, target, i) && i > 0
                                      ==> OwnPath(p, target, i) == recorded.value.value)
  {
    UnpinnedPath(p.sources, p.namespace);
    var first := p.sources[0];
    assert first in p.sources && !IsSelector(first);
    if NamedByPlainSource(p, target) {
      var i: nat :| PlainMatch(p, target, i) && r == Ok(PolicySource(Some(OwnPath(p, target, i))));
      OneMatch(p, target, i);
    } else {
      forall i: nat ensures !PlainMatch(p, target, i) {
        if PlainMatch(p, target, i) {
          MatchedIsNamed(p, target, i);
        }
      }
    }
  }

  /** Moving a PVC between the two forms keeps its restores: a policy that names it in a plain source without an
      override and one whose selectors, with neither strategy nor override, list it read the same path; selectors with
      the namespaced strategy read both names. */
  lemma SelectorRestoresThePlainPath(
    plain: Policy, selecting: Policy, target: PvcTarget, r: Result<RestoreSourcePath, Error>,
    q: Result<RestoreSourcePath, Error>,
    strategy: Option<Strategy>)
    requires NamedByPlainSource(plain, target) && (forall s :: s in plain.sources ==> s.pathOverride.None?)
    requires AnySelector(selecting) && !NamedByPlainSource(selecting, target)
    requires forall s :: s in selecting.sources && IsSelector(s) ==> s.strategy == strategy && s.pathOverride.None?
    requires Answers(plain, None, target, r) && Answers(selecting, None, target, q)
    ensures r.Ok? && q.Ok? && PathToRead(r.value) == Some("/pvc/" + target.name)
    ensures PathToRead(q.value) == if strategy == Some(PvcNamespacedName)
            then Some("/pvc/" + target.namespace + "/" + target.name)
                                   else PathToRead(r.value)
  {
    var i: nat :| PlainMatch(plain, target, i) && r == Ok(PolicySource(Some(OwnPath(plain, target, i))));
    assert plain.sources[i] in plain.sources;
    assert SelectorsAgree(selecting);
  }

  lemma OneMatch(p: Policy, target: PvcTarget, i: nat)
    requires PlainMatch(p, target, i)
    ensures i < |p.sources| && p.sources[i].pvc == Some(target.name) && !p.sources[i].pvcSelector
    ensures forall j: nat :: PlainMatch(p, target, j) ==> j == i
  {
    hide RestoreShapeOf;
    assert p.sources[i].pvc == Some(target.name) && !p.sources[i].pvcSelector by {
      PlainShape(p.sources[i], target.name);
    }
  }

  lemma PlainShape(s: Source, name: string)
    requires RestoreShapeOf(s) == Pvc(name)
    ensures s.pvc == Some(name) && !s.pvcSelector
  {
  }

  lemma MatchedIsNamed(p: Policy, target: PvcTarget, i: nat)
    requires PlainMatch(p, target, i)
    ensures i < |p.sources| && NamedByPlainSource(p, target)
  {
    hide RestoreShapeOf;
    assert p.sources[i] in p.sources;
  }

  /** Without any `sourcePathOverride`, and with listings confined to the policy's namespace as the cluster listing is,
      no member is ever filled from another volume's path, plain sources or not. */
  lemma NeverAnotherVolume(
    p: Policy, base: string, matched: Matched, pair: Pair, r: Result<RestoreSourcePath, Error>, other: Pair)
    requires WellFormed(p) && InRange(p, AllPairs(p, matched)) && NoCollision(p, AllPairs(p, matched))
    requires forall s :: s in p.sources ==> s.pathOverride.None?
    requires forall q :: q in AllPairs(p, matched) ==> q.target.namespace == p.namespace && PlainTarget(q.target)
    requires pair in AllPairs(p, matched) && Answers(p, None, pair.target, r)
    ensures !ReadsOther(p, base, matched, pair, r, other)
  {
    hide RecordedPath, MemberFor, Answers, NoCollision, RestoreShapeOf;
    if other in AllPairs(p, matched) && other.target != pair.target {
      ReadsOtherIff(p, base, matched, pair, r, other);
      forall i: nat | PlainMatch(p, pair.target, i) ensures !LeadsTo(p, pair.target, i, other) {
        assert p.sources[i] in p.sources && p.sources[other.index] in p.sources;
      }
    }
  }

  const PLAIN_A: Source := Source(Some("a"), false, None, None, None, None, None)
  const FLATTENED_B: Source := Source(None, true, None, None, Some("/pvc/a"), None, None)
  const NAMESPACED_A: Source := Source(None, true, None, None, None, Some(PvcNamespacedName), None)
  const SHADOWED: Policy := Policy("db", "app", [PLAIN_A, FLATTENED_B, NAMESPACED_A], false, [])
  const VOLUME_A: PvcTarget := PvcTarget("db", "a")
  const VOLUME_B: PvcTarget := PvcTarget("db", "b")
  const B_THEN_A: Matched := map[1 := [VOLUME_B], 2 := [VOLUME_A]]

  lemma ShadowedPairs()
    ensures AllPairs(SHADOWED, B_THEN_A) == [Pair(1, VOLUME_B), Pair(2, VOLUME_A)]
  {
    assert Pairs(SHADOWED, B_THEN_A, 0) == [];
    assert Pairs(SHADOWED, B_THEN_A, 1) == [];
    assert SourcePairs(1, [VOLUME_B]) == [Pair(1, VOLUME_B)];
    assert Pairs(SHADOWED, B_THEN_A, 2) == [Pair(1, VOLUME_B)];
    assert SourcePairs(2, [VOLUME_A]) == [Pair(2, VOLUME_A)];
  }

  /** The plain-source condition of `NoCrossVolumeRestore` is needed: with `pvc: a` beside a selector whose override
      `/pvc/a` holds only `b`, restoring member `a` reads the path `b` was backed up under. */
  lemma PlainSourceShadowsMember(base: string)
    ensures var pairs := AllPairs(SHADOWED, B_THEN_A);
            && WellFormed(SHADOWED) && InRange(SHADOWED, pairs) && NoCollision(SHADOWED, pairs)
            && pairs == [Pair(1, VOLUME_B), Pair(2, VOLUME_A)]
            && Answers(SHADOWED, None, VOLUME_A, Ok(PolicySource(Some("/pvc/a"))))
            && RecordedPath(SHADOWED, MemberFor(SHADOWED, base, B_THEN_A, pairs[0])) == Ok(Some("/pvc/a"))
  {
    hide RecordedPath, MemberFor, AllPairs;
    ShadowedPairs();
    assert forall s :: s in SHADOWED.sources ==> s == PLAIN_A || s == FLATTENED_B || s == NAMESPACED_A;
    assert PathOf(SHADOWED, Pair(2, VOLUME_A))[6] == 'b';
    assert PLAIN_A == SHADOWED.sources[0] && PLAIN_A in SHADOWED.sources;
    assert PlainMatch(SHADOWED, VOLUME_A, 0);
    assert OwnPath(SHADOWED, VOLUME_A, 0) == "/pvc/a";
    GuardedPathIsRecorded(SHADOWED, base, B_THEN_A, Pair(1, VOLUME_B));
  }

  const REDIRECTED_A: Source := PLAIN_A.(pathOverride := Some("/pvc/b"))
  const REDIRECTED: Policy := Policy("db", "app", [REDIRECTED_A, BY_NAME], false, [])
  const A_AND_B: Matched := map[1 := [VOLUME_A, VOLUME_B]]

  lemma RedirectedPairs()
    ensures AllPairs(REDIRECTED, A_AND_B) == [Pair(1, VOLUME_A), Pair(1, VOLUME_B)]
  {
    assert Pairs(REDIRECTED, A_AND_B, 0) == [];
    assert Pairs(REDIRECTED, A_AND_B, 1) == [];
    assert SourcePairs(1, [VOLUME_A, VOLUME_B]) == [Pair(1, VOLUME_A), Pair(1, VOLUME_B)];
  }

  /** The other failing shape, with the override on the plain source: `pvc: a` overridden to `/pvc/b` beside a `PvcName`
      selector that lists `a` and `b`. Restoring member `a` reads what `b` recorded. */
  lemma RedirectedPlainSourceReadsSibling(base: string)
    ensures var pairs := AllPairs(REDIRECTED, A_AND_B);
            && WellFormed(REDIRECTED) && InRange(REDIRECTED, pairs) && NoCollision(REDIRECTED, pairs)
            && pairs == [Pair(1, VOLUME_A), Pair(1, VOLUME_B)]
            && Answers(REDIRECTED, None, VOLUME_A, Ok(PolicySource(Some("/pvc/b"))))
            && RecordedPath(REDIRECTED, MemberFor(REDIRECTED, base, A_AND_B, pairs[1])) == Ok(Some("/pvc/b"))
  {
    hide RecordedPath, MemberFor, AllPairs;
    RedirectedPairs();
    assert forall s :: s in REDIRECTED.sources ==> s == REDIRECTED_A || s == BY_NAME;
    PvcPathCollisions(VOLUME_A, PvcName, VOLUME_B, PvcName);
    assert REDIRECTED_A == REDIRECTED.sources[0] && REDIRECTED_A in REDIRECTED.sources;
    assert PlainMatch(REDIRECTED, VOLUME_A, 0);
    assert OwnPath(REDIRECTED, VOLUME_A, 0) == "/pvc/b";
    GuardedPathIsRecorded(REDIRECTED, base, A_AND_B, Pair(1, VOLUME_B));
    assert PathOf(REDIRECTED, Pair(1, VOLUME_B)) == "/pvc/b";
  }

  const NAMED_TWICE: Policy := Policy("db", "app", [PLAIN_A, NAMESPACED_A], false, [])
  const ONLY_A: Matched := map[1 := [VOLUME_A]]

  /** The plain source wins even where it leads away from the member's own backup: with `pvc: a` beside a
      `PvcNamespacedName` selector listing `a`, the restore reads `/pvc/a` and the member records `/pvc/db/a`. */
  lemma PlainSourceLeadsAway(base: string)
    ensures var pairs := AllPairs(NAMED_TWICE, ONLY_A);
            && WellFormed(NAMED_TWICE) && InRange(NAMED_TWICE, pairs) && NoCollision(NAMED_TWICE, pairs)
            && pairs == [Pair(1, VOLUME_A)]
            && Answers(NAMED_TWICE, None, VOLUME_A, Ok(PolicySource(Some("/pvc/a"))))
            && RecordedPath(NAMED_TWICE, MemberFor(NAMED_TWICE, base, ONLY_A, pairs[0])) == Ok(Some("/pvc/db/a"))
  {
    hide RecordedPath, MemberFor, AllPairs;
    OnlyA();
    assert forall s :: s in NAMED_TWICE.sources ==> s == PLAIN_A || s == NAMESPACED_A;
    assert PLAIN_A == NAMED_TWICE.sources[0] && PLAIN_A in NAMED_TWICE.sources;
    assert PlainMatch(NAMED_TWICE, VOLUME_A, 0);
    assert OwnPath(NAMED_TWICE, VOLUME_A, 0) == "/pvc/a";
    GuardedPathIsRecorded(NAMED_TWICE, base, ONLY_A, Pair(1, VOLUME_A));
    assert PathOf(NAMED_TWICE, Pair(1, VOLUME_A)) == "/pvc/db/a";
  }

  lemma OnlyA()
    ensures AllPairs(NAMED_TWICE, ONLY_A) == [Pair(1, VOLUME_A)]
  {
    assert Pairs(NAMED_TWICE, ONLY_A, 0) == [];
    assert Pairs(NAMED_TWICE, ONLY_A, 1) == [];
    assert SourcePairs(1, [VOLUME_A]) == [Pair(1, VOLUME_A)];
  }
}
