/** The kopia source path one backup records, derived in one place for every source form. */
module SourcePaths {
  import opened Text
  import opened Refs

  datatype Strategy = PvcName | PvcNamespacedName

  /** `stream` is the producer's file name; a selector's labels matter only to the cluster listing. */
  datatype Source = Source(
    pvc: Option<string>, pvcSelector: bool, nfs: Option<string>, stream: Option<string>,
    pathOverride: Option<string>, strategy: Option<Strategy>, readOnly: Option<bool>)

  datatype Policy = Policy(
    namespace: string, name: string, sources: seq<Source>, groupByVolumeGroup: bool, repositories: seq<RepositoryRef>)

  datatype SourceGroup = SourceGroup(namespace: string, volumeGroupSnapshotName: string)

  /** The pin of a fanned-out child (`Snapshot.spec.source`). */
  datatype SourceRef = SourceRef(sourceIndex: nat, target: PvcTarget, group: Option<SourceGroup>)

  datatype Error =
    | MissingForm
    | MutuallyExclusive(a: string, b: string)
    | IndexOutOfRange(index: nat, sources: nat)
    | PinnedSourceHasNoPvc(target: PvcTarget, index: nat)
    | AmbiguousSourcePath
    | MalformedSourcePath

  /** The four mutually exclusive forms. */
  datatype Shape = PvcShape(name: string) | SelectorShape | NfsShape(path: string) | StreamShape(fileName: string)

  function FormsSet(s: Source): seq<string> {
    (if s.pvc.Some? then ["pvc"] else []) + (if s.pvcSelector then ["pvcSelector"] else [])
    + (if s.nfs.Some? then ["nfs"] else []) + (if s.stream.Some? then ["stream"] else [])
  }

  function ShapeOf(s: Source): (r: Result<Shape, Error>)
    ensures r.Ok? <==> |FormsSet(s)| == 1
  {
    var forms := FormsSet(s);
    if |forms| == 0 then Err(MissingForm)
    else if |forms| >= 2 then Err(MutuallyExclusive(forms[0], forms[1]))
    else if s.pvc.Some? then Ok(PvcShape(s.pvc.value))
    else if s.pvcSelector then Ok(SelectorShape)
    else if s.nfs.Some? then Ok(NfsShape(s.nfs.value))
    else Ok(StreamShape(s.stream.value))
  }

  datatype EffectiveSource = EffectiveSource(
    index: nat, pvc: Option<PvcTarget>, nfsPath: Option<string>, stream: Option<string>,
    pathOverride: Option<string>, readOnly: bool)
  {
    function KopiaSourcePath(strategy: Strategy): Option<string> {
      if pathOverride.Some? then pathOverride
      else if pvc.Some? then Some(PvcPath(pvc.value, strategy))
      else if stream.Some? then Some("/stream/" + stream.value)
      else nfsPath
    }
  }

  function PvcPath(t: PvcTarget, strategy: Strategy): string {
    match strategy
    case PvcName => "/pvc/" + t.name
    case PvcNamespacedName => "/pvc/" + t.namespace + "/" + t.name
  }

  /** Only a selector source has a strategy of its own. */
  function StrategyFor(s: Source): Strategy {
    if s.pvcSelector then s.strategy.GetOr(PvcName) else PvcName
  }

  function EffectiveSourceIn(
    sources: seq<Source>, policyNs: string, pin: Option<SourceRef>): Result<EffectiveSource, Error>
  {
    var index := if pin.Some? then pin.value.sourceIndex else 0;
    if index >= |sources| then Err(IndexOutOfRange(index, |sources|))
    else
      var s := sources[index];
      var readOnly := s.readOnly.GetOr(true);
      match pin
      case Some(p) =>
        (match ShapeOf(s)
         case Err(e) => Err(e)
         case Ok(SelectorShape) => Ok(EffectiveSource(index, Some(p.target), s.nfs, s.stream, s.pathOverride, readOnly))
         case Ok(PvcShape(_)) => Ok(EffectiveSource(index, Some(p.target), s.nfs, s.stream, s.pathOverride, readOnly))
         case Ok(_) => Err(PinnedSourceHasNoPvc(p.target, index)))
      case None =>
        var own := if s.pvc.Some? then Some(PvcTarget(policyNs, s.pvc.value)) else None;
        Ok(EffectiveSource(index, own, s.nfs, s.stream, s.pathOverride, readOnly))
  }

  /** The path the governing source records; `Ok(None)` is the identity-only form. */
  function IdentitySourcePathIn(
    sources: seq<Source>, policyNs: string, pin: Option<SourceRef>): Result<Option<string>, Error>
  {
    if sources == [] && pin.None? then Ok(None)
    else
      match EffectiveSourceIn(sources, policyNs, pin)
      case Err(e) => Err(e)
      case Ok(eff) =>
        var strategy := if eff.index < |sources| then StrategyFor(sources[eff.index]) else PvcName;
        Ok(eff.KopiaSourcePath(strategy))
  }

  predicate WellFormed(p: Policy) {
    forall s :: s in p.sources ==> ShapeOf(s).Ok?
  }

  predicate HasSelector(p: Policy) {
    exists s :: s in p.sources && s.pvcSelector
  }

  /** A source has a shape exactly when one of its four forms is set, and then that form's; with none the form is
      missing, and with more the first two, in the order `pvc`, `pvcSelector`, `nfs`, `stream`, exclude each other. */
  lemma FormsAreExclusive(s: Source)
    ensures var pvc, selector := if s.pvc.Some? then 1 else 0, if s.pvcSelector then 1 else 0;
            var nfs, stream := if s.nfs.Some? then 1 else 0, if s.stream.Some? then 1 else 0;
            ShapeOf(s).Ok? <==> pvc + selector + nfs + stream == 1
    ensures ShapeOf(s).Ok? ==> match ShapeOf(s).value
                               case PvcShape(name) => s.pvc == Some(name)
                               case SelectorShape => s.pvcSelector
                               case NfsShape(path) => s.nfs == Some(path)
                               case StreamShape(fileName) => s.stream == Some(fileName)
    ensures s.pvc.None? && !s.pvcSelector && s.nfs.None? && s.stream.None? <==> ShapeOf(s) == Err(MissingForm)
    ensures s.pvc.Some? && s.pvcSelector ==> ShapeOf(s) == Err(MutuallyExclusive("pvc", "pvcSelector"))
    ensures s.pvc.Some? && !s.pvcSelector && s.nfs.Some? ==> ShapeOf(s) == Err(MutuallyExclusive("pvc", "nfs"))
    ensures s.pvc.Some? && !s.pvcSelector && s.nfs.None? && s.stream.Some?
            ==> ShapeOf(s) == Err(MutuallyExclusive("pvc", "stream"))
    ensures s.pvc.None? && s.pvcSelector && s.nfs.Some? ==> ShapeOf(s) == Err(MutuallyExclusive("pvcSelector", "nfs"))
    ensures s.pvc.None? && s.pvcSelector && s.nfs.None? && s.stream.Some?
            ==> ShapeOf(s) == Err(MutuallyExclusive("pvcSelector", "stream"))
    ensures s.pvc.None? && !s.pvcSelector && s.nfs.Some? && s.stream.Some?
            ==> ShapeOf(s) == Err(MutuallyExclusive("nfs", "stream"))
  {
  }

  /** A pinned child resolves exactly when its index is in range and that source is PVC-shaped, and then from that
      source and the pinned PVC alone: never by falling back to another source, never to a stream or export path. */
  lemma PinNeverFallsBack(sources: seq<Source>, policyNs: string, pin: SourceRef)
    ensures var r := IdentitySourcePathIn(sources, policyNs, Some(pin));
            && (r.Ok? <==> pin.sourceIndex < |sources|
                           && |FormsSet(sources[pin.sourceIndex])| == 1
                           && (sources[pin.sourceIndex].pvc.Some? || sources[pin.sourceIndex].pvcSelector))
            && (r.Ok? ==> var s := sources[pin.sourceIndex];
                          r.value == Some(s.pathOverride.GetOr(PvcPath(pin.target, StrategyFor(s)))))
            && (pin.sourceIndex >= |sources| ==> r == Err(IndexOutOfRange(pin.sourceIndex, |sources|)))
            && (pin.sourceIndex < |sources| ==>
                  var s := sources[pin.sourceIndex];
                  && (s.pvc.None? && !s.pvcSelector && s.nfs.None? && s.stream.None? <==> r == Err(MissingForm))
                  && (s.pvc.None? && !s.pvcSelector && s.nfs.Some? != s.stream.Some?
                      <==> r == Err(PinnedSourceHasNoPvc(pin.target, pin.sourceIndex))))
    ensures var e := EffectiveSourceIn(sources, policyNs, Some(pin));
            e.Ok? ==> e.value.index == pin.sourceIndex && e.value.pvc == Some(pin.target)
                      && (e.value.readOnly <==> sources[pin.sourceIndex].readOnly != Some(false))
  {
  }

  /** Moving a PVC between the two forms keeps its history: a child of a selector with neither strategy nor override
      records exactly the path a plain `pvc:` source of that PVC records, and the namespaced strategy spells out both
      names. */
  lemma SelectorRecordsThePlainPath(sources: seq<Source>, pin: SourceRef, plain: Source)
    requires pin.sourceIndex < |sources|
    requires var s := sources[pin.sourceIndex];
             s.pvcSelector && s.pvc.None? && s.nfs.None? && s.stream.None? && s.pathOverride.None?
    requires plain.pvc == Some(pin.target.name) && !plain.pvcSelector && plain.nfs.None? && plain.stream.None?
             && plain.pathOverride.None?
    ensures var s := sources[pin.sourceIndex]; var ns, name := pin.target.namespace, pin.target.name;
            var recorded := IdentitySourcePathIn(sources, ns, Some(pin));
            && (s.strategy != Some(PvcNamespacedName) ==>
                  recorded == IdentitySourcePathIn([plain], ns, None) == Ok(Some("/pvc/" + name)))
            && (s.strategy == Some(PvcNamespacedName) ==> recorded == Ok(Some("/pvc/" + ns + "/" + name)))
  {
  }

  /** An unpinned well-formed policy records its first source's own path; only a selector without an override has
      none. */
  lemma UnpinnedPath(sources: seq<Source>, policyNs: string)
    requires sources != [] && ShapeOf(sources[0]).Ok?
    ensures var r := IdentitySourcePathIn(sources, policyNs, None); var s := sources[0];
            && r.Ok? && (r.value.None? <==> s.pvcSelector && s.pathOverride.None?)
            && (s.pathOverride.Some? ==> r.value == s.pathOverride)
            && (s.pathOverride.None? && s.pvc.Some? ==> r.value == Some("/pvc/" + s.pvc.value))
            && (s.pathOverride.None? && s.nfs.Some? ==> r.value == s.nfs)
            && (s.pathOverride.None? && s.stream.Some? ==> r.value == Some("/stream/" + s.stream.value))
  {
  }

  /** A streamed artifact, a volume backup and their roots never share a default path. */
  lemma StreamPathsAreDisjoint(fileName: string, t: PvcTarget, strategy: Strategy)
    ensures "/stream/" + fileName != PvcPath(t, strategy)
  {
    assert ("/stream/" + fileName)[1] == 's';
    assert PvcPath(t, strategy)[1] == 'p';
  }

  lemma PvcPathParts(t: PvcTarget, strategy: Strategy)
    requires Plain(t.namespace) && Plain(t.name)
    ensures Split(PvcPath(t, strategy), '/')
            == if strategy == PvcName then ["", "pvc", t.name] else ["", "pvc", t.namespace, t.name]
  {
    assert "" + ['/'] + "pvc" + ['/'] == "/pvc/";
    if strategy == PvcName {
      JoinThree("", "pvc", t.name, '/');
      SplitJoin(["", "pvc", t.name], '/');
    } else {
      JoinFour("", "pvc", t.namespace, t.name, '/');
      SplitJoin(["", "pvc", t.namespace, t.name], '/');
    }
  }

  /** On slash-free names, derived paths collide exactly for same-named PVCs under `PvcName`, or for the
      same PVC under `PvcNamespacedName`. */
  lemma PvcPathCollisions(t: PvcTarget, s: Strategy, u: PvcTarget, r: Strategy)
    requires Plain(t.namespace) && Plain(t.name) && Plain(u.namespace) && Plain(u.name)
    ensures PvcPath(t, s) == PvcPath(u, r)
            <==> s == r && t.name == u.name && (s == PvcNamespacedName ==> t.namespace == u.namespace)
  {
    PvcPathParts(t, s);
    PvcPathParts(u, r);
    if PvcPath(t, s) == PvcPath(u, r) {
      var parts := Split(PvcPath(t, s), '/');
      assert parts[|parts| - 1] == t.name == u.name;
      if s == PvcNamespacedName {
        assert parts[2] == t.namespace == u.namespace;
      }
    }
  }
}
