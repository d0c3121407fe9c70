/** Whether a mover can read what workloads wrote, judged from security contexts alone: a verdict that is sound and
    does not depend on the order pods are listed in. */
module Compat {
  import opened Text
  import opened Utf8

  datatype SecurityContext = SecurityContext(
    runAsUser: Option<int>, runAsGroup: Option<int>, privileged: Option<bool>, capabilitiesAdded: Option<seq<string>>)

  datatype PodSecurityContext = PodSecurityContext(
    runAsUser: Option<int>, runAsGroup: Option<int>, fsGroup: Option<int>, supplementalGroups: Option<seq<int>>)

  datatype Container = Container(securityContext: Option<SecurityContext>)

  /** `volumes` holds the claim behind each volume, if it is a PVC volume. */
  datatype PodSpec = PodSpec(
    securityContext: Option<PodSecurityContext>, initContainers: Option<seq<Container>>, containers: seq<Container>,
    volumes: Option<seq<Option<string>>>)

  datatype Pod = Pod(
    namespace: Option<string>, name: Option<string>, labels: Option<map<string, string>>, spec: Option<PodSpec>)

  datatype MoverIdentity = MoverIdentity(uid: Option<int>, groups: set<int>, fsGroup: Option<int>, readsAnyFile: bool)

  datatype WorkloadIdentity = WorkloadIdentity(
    namespace: string, name: string, writerUids: set<int>, hasUnpinnedWriter: bool, fileGroups: set<int>,
    primaryUid: Option<int>, fsGroup: Option<int>)

  // --- identities ------------------------------------------------------------------------

  const NO_POD_CONTEXT: PodSecurityContext := PodSecurityContext(None, None, None, None)
  const NO_CONTEXT: SecurityContext := SecurityContext(None, None, None, None)

  function One(g: Option<int>): set<int> { if g.Some? then {g.value} else {} }

  function Many(gs: Option<seq<int>>): set<int> { if gs.Some? then set g | g in gs.value else {} }

  function UpperChar(c: char): char { if 'a' <= c <= 'z' then (c as int - 32) as char else c }

  function Capability(s: string): string {
    var t := Trim(s, WHITESPACE);
    var up := seq(|t|, i requires 0 <= i < |t| => UpperChar(t[i]));
    if "CAP_" <= up then up[4..] else up
  }

  predicate BypassesReadChecks(sc: SecurityContext) {
    || sc.privileged == Some(true)
    || (sc.capabilitiesAdded.Some?
        && exists c :: c in sc.capabilitiesAdded.value && Capability(c) in {"DAC_OVERRIDE", "DAC_READ_SEARCH"})
  }

  method MoverIdentityOf(sc: SecurityContext, psc: Option<PodSecurityContext>) returns (m: MoverIdentity)
    ensures var p := psc.GetOr(NO_POD_CONTEXT);
            && m.uid == sc.runAsUser.Or(p.runAsUser) && m.fsGroup == p.fsGroup
            && m.groups == One(sc.runAsGroup.Or(p.runAsGroup)) + One(p.fsGroup) + Many(p.supplementalGroups)
            && (m.readsAnyFile <==> m.uid == Some(0) && BypassesReadChecks(sc))
  {
    var groups: set<int> := {};
    var p := psc.GetOr(NO_POD_CONTEXT);
    var gid := sc.runAsGroup.Or(p.runAsGroup);
    if gid.Some? {
      groups := groups + {gid.value};
    }
    if psc.Some? {
      if psc.value.fsGroup.Some? {
        groups := groups + {psc.value.fsGroup.value};
      }
      if psc.value.supplementalGroups.Some? {
        var sup := psc.value.supplementalGroups.value;
        for i := 0 to |sup|
          invariant groups == One(gid) + One(p.fsGroup) + set g | g in sup[..i]
        {
          assert sup[..i + 1] == sup[..i] + [sup[i]];
          groups := groups + {sup[i]};
        }
        assert sup[..|sup|] == sup;
      }
    }
    var uid := sc.runAsUser.Or(p.runAsUser);
    m := MoverIdentity(uid, groups, p.fsGroup, uid == Some(0) && BypassesReadChecks(sc));
  }

  function PodContext(pod: Pod): PodSecurityContext {
    if pod.spec.Some? then pod.spec.value.securityContext.GetOr(NO_POD_CONTEXT) else NO_POD_CONTEXT
  }

  function Inits(pod: Pod): seq<Container> {
    if pod.spec.Some? then pod.spec.value.initContainers.GetOr([]) else []
  }

  function Mains(pod: Pod): seq<Container> {
    if pod.spec.Some? then pod.spec.value.containers else []
  }

  /** Every container that may have written files, init containers first. */
  function Writers(pod: Pod): seq<Container> { Inits(pod) + Mains(pod) }

  /** Container over pod; `None` when the image decides. */
  function EffectiveUid(pod: Pod, c: Container): Option<int> {
    c.securityContext.GetOr(NO_CONTEXT).runAsUser.Or(PodContext(pod).runAsUser)
  }

  ghost function WriterUids(pod: Pod, cs: seq<Container>): set<int> {
    set c | c in cs && EffectiveUid(pod, c).Some? :: EffectiveUid(pod, c).value
  }

  ghost function ContainerGroups(cs: seq<Container>): set<int> {
    set c | c in cs && c.securityContext.GetOr(NO_CONTEXT).runAsGroup.Some?
      :: c.securityContext.GetOr(NO_CONTEXT).runAsGroup.value
  }

  ghost predicate AllPinned(pod: Pod, cs: seq<Container>) {
    forall c :: c in cs ==> EffectiveUid(pod, c).Some?
  }

  ghost function FileGroups(pod: Pod): set<int> {
    One(PodContext(pod).runAsGroup) + One(PodContext(pod).fsGroup) + Many(PodContext(pod).supplementalGroups)
    + ContainerGroups(Writers(pod))
  }

  /** What the extraction must find in a pod. */
  ghost predicate Describes(w: WorkloadIdentity, pod: Pod) {
    && w.namespace == pod.namespace.GetOr("") && w.name == pod.name.GetOr("")
    && w.writerUids == WriterUids(pod, Writers(pod))
    && (w.hasUnpinnedWriter <==> Writers(pod) == [] || !AllPinned(pod, Writers(pod)))
    && w.fileGroups == FileGroups(pod)
    && w.primaryUid == (if Mains(pod) == [] then PodContext(pod).runAsUser else EffectiveUid(pod, Mains(pod)[0]))
    && w.fsGroup == PodContext(pod).fsGroup
  }

  method WorkloadIdentityOf(pod: Pod) returns (w: WorkloadIdentity)
    ensures Describes(w, pod)
  {
    var podSc := PodContext(pod);
    var cs := Writers(pod);
    var writerUids: set<int> := {};
    var unpinned := false;
    var groups := One(podSc.runAsGroup) + One(podSc.fsGroup) + Many(podSc.supplementalGroups);
    ghost var podGroups := groups;
    for i := 0 to |cs|
      invariant writerUids == WriterUids(pod, cs[..i])
      invariant unpinned <==> !AllPinned(pod, cs[..i])
      invariant groups == podGroups + ContainerGroups(cs[..i])
    {
      assert cs[..i + 1] == cs[..i] + [cs[i]];
      assert forall c :: c in cs[..i + 1] <==> c in cs[..i] || c == cs[i];
      var csc := cs[i].securityContext.GetOr(NO_CONTEXT);
      var uid := csc.runAsUser.Or(podSc.runAsUser);
      assert uid == EffectiveUid(pod, cs[i]);
      assert WriterUids(pod, cs[..i + 1]) == WriterUids(pod, cs[..i]) + One(uid);
      if uid.Some? {
        writerUids := writerUids + {uid.value};
      } else {
        unpinned := true;
      }
      if csc.runAsGroup.Some? {
        groups := groups + {csc.runAsGroup.value};
      }
    }
    assert cs[..|cs|] == cs;
    if Inits(pod) == [] && Mains(pod) == [] {
      unpinned := true;
    }
    var primary := if Mains(pod) == [] then podSc.runAsUser else EffectiveUid(pod, Mains(pod)[0]);
    w := WorkloadIdentity(pod.namespace.GetOr(""), pod.name.GetOr(""), writerUids, unpinned, groups, primary,
                          podSc.fsGroup);
  }

  predicate MountsClaim(pod: Pod, claim: string) {
    pod.spec.Some? && exists v :: v in pod.spec.value.volumes.GetOr([]) && v == Some(claim)
  }

  predicate IsManaged(pod: Pod) {
    pod.labels.Some? && "app.kubernetes.io/managed-by" in pod.labels.value
    && pod.labels.value["app.kubernetes.io/managed-by"] == "kopiur"
  }

  /** A workload consuming the claim: mounts it and is not a mover of ours. */
  predicate Consumes(pod: Pod, claim: string) { MountsClaim(pod, claim) && !IsManaged(pod) }

  /** `ws` describes exactly the consuming pods. */
  ghost predicate DescribesAll(ws: seq<WorkloadIdentity>, pods: seq<Pod>, claim: string) {
    && (forall w :: w in ws ==> exists pod :: pod in pods && Consumes(pod, claim) && Describes(w, pod))
    && (forall pod :: pod in pods && Consumes(pod, claim) ==> exists w :: w in ws && Describes(w, pod))
  }

  method WorkloadIdentities(pods: seq<Pod>, claim: string) returns (ws: seq<WorkloadIdentity>)
    ensures DescribesAll(ws, pods, claim)
  {
    ws := [];
    for i := 0 to |pods|
      invariant DescribesAll(ws, pods[..i], claim)
    {
      assert pods[..i + 1] == pods[..i] + [pods[i]];
      if Consumes(pods[i], claim) {
        var w := WorkloadIdentityOf(pods[i]);
        ws := Extend(ws, pods[..i], claim, pods[i], w);
      }
    }
    assert pods[..|pods|] == pods;
  }

  method Extend(
    ws: seq<WorkloadIdentity>, ghost before: seq<Pod>, claim: string, ghost pod: Pod, w: WorkloadIdentity)
    returns (r: seq<WorkloadIdentity>)
    requires DescribesAll(ws, before, claim) && Consumes(pod, claim) && Describes(w, pod)
    ensures DescribesAll(r, before + [pod], claim)
  {
    hide Describes, Consumes;
    r := ws + [w];
    forall x | x in r ensures exists p :: p in before + [pod] && Consumes(p, claim) && Describes(x, p) {
      if x in ws {
        var p :| p in before && Consumes(p, claim) && Describes(x, p);
        assert p in before + [pod];
      } else {
        assert pod in before + [pod];
      }
    }
    forall p | p in before + [pod] && Consumes(p, claim) ensures exists x :: x in r && Describes(x, p) {
      if p in before {
        var x :| x in ws && Describes(x, p);
        assert x in r;
      } else {
        assert w in r;
      }
    }
  }

  // --- verdicts ------------------------------------------------------------------------------

  datatype CompatBasis = RootMover | ExactUidMatch

  datatype UnknownReason = MoverUidUnpinned | WorkloadUidUnpinned | OnlyGroupOverlap | NoConsumerPod | FsGroupMayApply

  datatype ReadCompat =
    | Compatible(basis: CompatBasis)
    | Unknown(why: UnknownReason)
    | LikelyIncompatible(moverUid: int, workloadUids: seq<int>)

  function AllWriters(ws: seq<WorkloadIdentity>): set<int> {
    set w, u | w in ws && u in w.writerUids :: u
  }

  lemma EmptyOrNot(s: set<int>)
    ensures s == {} || exists x :: x in s
  {
    if !exists x :: x in s {
      assert s == {};
    }
  }

  lemma Pick(s: set<int>) returns (x: int)
    requires s != {}
    ensures x in s
  {
    EmptyOrNot(s);
    x :| x in s;
  }

  lemma {:induction false} LeastOf(s: set<int>) returns (m: int)
    requires s != {}
    ensures m in s && forall x :: x in s ==> m <= x
    decreases |s|
  {
    var x := Pick(s);
    m := x;
    var rest := s - {x};
    if rest != {} {
      var n := LeastOf(rest);
      m := if n < x then n else x;
    }
    forall y | y in s ensures m <= y {
      if y != x {
        assert y in rest;
      }
    }
  }

  function Least(s: set<int>): (m: int)
    requires s != {}
    ensures m in s && forall x :: x in s ==> m <= x
  {
    assert exists m :: m in s && forall x :: x in s ==> m <= x by { var m := LeastOf(s); }
    var m :| m in s && forall x :: x in s ==> m <= x;
    m
  }

  /** A sorted set as a list. */
  function Ascending(s: set<int>): (r: seq<int>)
    ensures forall u :: u in r <==> u in s
    ensures forall i, j :: 0 <= i < j < |r| ==> r[i] < r[j]
    decreases |s|
  {
    if s == {} then []
    else
      var m := Least(s);
      var rest := Ascending(s - {m});
      assert forall j :: 0 <= j < |rest| ==> rest[j] in rest;
      [m] + rest
  }

  function AssessReadCompat(mover: MoverIdentity, ws: seq<WorkloadIdentity>, sourceReadOnly: bool): ReadCompat {
    if mover.readsAnyFile then Compatible(RootMover)
    else if ws == [] then Unknown(NoConsumerPod)
    else if mover.uid.None? then Unknown(MoverUidUnpinned)
    else if exists w :: w in ws && w.hasUnpinnedWriter then Unknown(WorkloadUidUnpinned)
    else if AllWriters(ws) == {mover.uid.value} then Compatible(ExactUidMatch)
    else if !sourceReadOnly && mover.fsGroup.Some? then Unknown(FsGroupMayApply)
    else if exists w :: w in ws && w.fileGroups * mover.groups != {} then Unknown(OnlyGroupOverlap)
    else LikelyIncompatible(mover.uid.value, Ascending(AllWriters(ws)))
  }

  // --- what the verdict means for the pods ------------------------------------------------------

  /** Some workload consumes the claim, and every one has writers, all with a pinned UID. */
  ghost predicate EveryWriterPinned(pods: seq<Pod>, claim: string) {
    && (exists pod :: pod in pods && Consumes(pod, claim))
    && (forall pod :: pod in pods && Consumes(pod, claim) ==> Writers(pod) != [] && AllPinned(pod, Writers(pod)))
  }

  ghost predicate EveryWriterIs(pods: seq<Pod>, claim: string, uid: int) {
    forall pod, c :: pod in pods && Consumes(pod, claim) && c in Writers(pod) ==> EffectiveUid(pod, c) == Some(uid)
  }

  ghost predicate SharesGroup(pods: seq<Pod>, claim: string, mover: MoverIdentity) {
    exists pod, g :: pod in pods && Consumes(pod, claim) && g in FileGroups(pod) && g in mover.groups
  }

  lemma ConsumerOf(ws: seq<WorkloadIdentity>, pods: seq<Pod>, claim: string, w: WorkloadIdentity) returns (pod: Pod)
    requires DescribesAll(ws, pods, claim) && w in ws
    ensures pod in pods && Consumes(pod, claim) && Describes(w, pod)
  {
    hide Consumes, Describes;
    pod :| pod in pods && Consumes(pod, claim) && Describes(w, pod);
  }

  lemma IdentityOf(ws: seq<WorkloadIdentity>, pods: seq<Pod>, claim: string, pod: Pod) returns (w: WorkloadIdentity)
    requires DescribesAll(ws, pods, claim) && pod in pods && Consumes(pod, claim)
    ensures w in ws && Describes(w, pod)
  {
    hide Consumes, Describes;
    w :| w in ws && Describes(w, pod);
  }

  lemma PinnedAgrees(ws: seq<WorkloadIdentity>, pods: seq<Pod>, claim: string)
    requires DescribesAll(ws, pods, claim)
    ensures ws != [] <==> exists pod :: pod in pods && Consumes(pod, claim)
    ensures ws != [] && (forall w :: w in ws ==> !w.hasUnpinnedWriter) <==> EveryWriterPinned(pods, claim)
  {
    hide Consumes, DescribesAll, AllPinned, Writers, WriterUids, FileGroups;
    if ws != [] {
      var pod := ConsumerOf(ws, pods, claim, ws[0]);
    }
    if exists pod :: pod in pods && Consumes(pod, claim) {
      var pod :| pod in pods && Consumes(pod, claim);
      var w := IdentityOf(ws, pods, claim, pod);
    }
    if ws != [] && forall w :: w in ws ==> !w.hasUnpinnedWriter {
      forall pod | pod in pods && Consumes(pod, claim) ensures Writers(pod) != [] && AllPinned(pod, Writers(pod)) {
        var w := IdentityOf(ws, pods, claim, pod);
      }
    }
    if EveryWriterPinned(pods, claim) {
      forall w | w in ws ensures !w.hasUnpinnedWriter {
        var pod := ConsumerOf(ws, pods, claim, w);
      }
    }
  }

  lemma WriterUidIn(ws: seq<WorkloadIdentity>, w: WorkloadIdentity, u: int)
    requires w in ws && u in w.writerUids
    ensures u in AllWriters(ws)
  {
  }

  lemma UidsAgree(ws: seq<WorkloadIdentity>, pods: seq<Pod>, claim: string, uid: int)
    requires DescribesAll(ws, pods, claim) && EveryWriterPinned(pods, claim)
    ensures AllWriters(ws) == {uid} <==> EveryWriterIs(pods, claim, uid)
  {
    hide Consumes, DescribesAll, Writers, FileGroups, EffectiveUid;
    if AllWriters(ws) == {uid} {
      forall pod, c | pod in pods && Consumes(pod, claim) && c in Writers(pod)
        ensures EffectiveUid(pod, c) == Some(uid)
      {
        var w := IdentityOf(ws, pods, claim, pod);
        WriterUidIn(ws, w, EffectiveUid(pod, c).value);
      }
    }
    if EveryWriterIs(pods, claim, uid) {
      forall u | u in AllWriters(ws) ensures u == uid {
        var w :| w in ws && u in w.writerUids;
        var pod := ConsumerOf(ws, pods, claim, w);
        var c :| c in Writers(pod) && EffectiveUid(pod, c) == Some(u);
      }
      var pod :| pod in pods && Consumes(pod, claim);
      var w := IdentityOf(ws, pods, claim, pod);
      assert Writers(pod)[0] in Writers(pod);
      assert EffectiveUid(pod, Writers(pod)[0]) == Some(uid);
      WriterUidIn(ws, w, uid);
      assert AllWriters(ws) == {uid};
    }
  }

  lemma GroupsAgree(ws: seq<WorkloadIdentity>, pods: seq<Pod>, claim: string, mover: MoverIdentity)
    requires DescribesAll(ws, pods, claim)
    ensures (exists w :: w in ws && w.fileGroups * mover.groups != {}) <==> SharesGroup(pods, claim, mover)
  {
    hide Consumes, DescribesAll, AllPinned, Writers, WriterUids, FileGroups;
    if exists w :: w in ws && w.fileGroups * mover.groups != {} {
      var w :| w in ws && w.fileGroups * mover.groups != {};
      var g := Pick(w.fileGroups * mover.groups);
      var pod := ConsumerOf(ws, pods, claim, w);
      assert g in FileGroups(pod);
    }
    if SharesGroup(pods, claim, mover) {
      var pod, g :| pod in pods && Consumes(pod, claim) && g in FileGroups(pod) && g in mover.groups;
      var w := IdentityOf(ws, pods, claim, pod);
      assert g in w.fileGroups * mover.groups;
    }
  }

  /** A verdict of exact match is given exactly when the mover is no all-reading root, some unmanaged pod mounts the
      claim, and every init and main container of every such pod runs with the mover's own pinned UID. */
  lemma ExactMatchIsSound(
    mover: MoverIdentity, pods: seq<Pod>, claim: string, ws: seq<WorkloadIdentity>, readOnly: bool)
    requires DescribesAll(ws, pods, claim)
    ensures AssessReadCompat(mover, ws, readOnly) == Compatible(ExactUidMatch)
            <==> !mover.readsAnyFile && mover.uid.Some? && EveryWriterPinned(pods, claim)
                 && EveryWriterIs(pods, claim, mover.uid.value)
  {
    hide EveryWriterPinned, EveryWriterIs, DescribesAll, AllWriters;
    PinnedAgrees(ws, pods, claim);
    if mover.uid.Some? && EveryWriterPinned(pods, claim) {
      UidsAgree(ws, pods, claim, mover.uid.value);
    }
  }

  /** A mismatch is reported exactly when every writer is pinned, some writer differs from the mover, no group is
      shared, and no read-write `fsGroup` walk can intervene. */
  lemma MismatchIsSound(mover: MoverIdentity, pods: seq<Pod>, claim: string, ws: seq<WorkloadIdentity>, readOnly: bool)
    requires DescribesAll(ws, pods, claim)
    ensures AssessReadCompat(mover, ws, readOnly).LikelyIncompatible?
            <==> !mover.readsAnyFile && mover.uid.Some? && EveryWriterPinned(pods, claim)
                 && !EveryWriterIs(pods, claim, mover.uid.value) && !SharesGroup(pods, claim, mover)
                 && (readOnly || mover.fsGroup.None?)
  {
    hide EveryWriterPinned, EveryWriterIs, DescribesAll, AllWriters, SharesGroup, Ascending;
    PinnedAgrees(ws, pods, claim);
    GroupsAgree(ws, pods, claim, mover);
    if mover.uid.Some? && EveryWriterPinned(pods, claim) {
      UidsAgree(ws, pods, claim, mover.uid.value);
    }
  }

  /** Every abstention names its true reason, and only a permission-bypassing root is trusted without looking. */
  lemma AbstentionsAreTrue(
    mover: MoverIdentity, pods: seq<Pod>, claim: string, ws: seq<WorkloadIdentity>, readOnly: bool)
    requires DescribesAll(ws, pods, claim)
    ensures var v := AssessReadCompat(mover, ws, readOnly);
            var consumed := exists pod :: pod in pods && Consumes(pod, claim);
            var pinned := !mover.readsAnyFile && mover.uid.Some? && EveryWriterPinned(pods, claim);
            var differs := pinned && !EveryWriterIs(pods, claim, mover.uid.value);
            && (v == Compatible(RootMover) <==> mover.readsAnyFile)
            && (v == Unknown(NoConsumerPod) <==> !mover.readsAnyFile && !consumed)
            && (v == Unknown(MoverUidUnpinned) <==> !mover.readsAnyFile && consumed && mover.uid.None?)
            && (v == Unknown(WorkloadUidUnpinned) <==> !mover.readsAnyFile && consumed && mover.uid.Some? && !pinned)
            && (v == Unknown(FsGroupMayApply) <==> differs && !readOnly && mover.fsGroup.Some?)
            && (v == Unknown(OnlyGroupOverlap)
                <==> differs && (readOnly || mover.fsGroup.None?) && SharesGroup(pods, claim, mover))
  {
    hide EveryWriterPinned, EveryWriterIs, DescribesAll, AllWriters, SharesGroup, Ascending, Consumes;
    PinnedAgrees(ws, pods, claim);
    GroupsAgree(ws, pods, claim, mover);
    if mover.uid.Some? && EveryWriterPinned(pods, claim) {
      UidsAgree(ws, pods, claim, mover.uid.value);
    }
  }

  /** A mismatch report names the mover's UID and lists exactly the writers' UIDs, in ascending order. */
  lemma MismatchNamesTheWriters(
    mover: MoverIdentity, pods: seq<Pod>, claim: string, ws: seq<WorkloadIdentity>, readOnly: bool)
    requires DescribesAll(ws, pods, claim) && AssessReadCompat(mover, ws, readOnly).LikelyIncompatible?
    ensures var v := AssessReadCompat(mover, ws, readOnly);
            && mover.uid == Some(v.moverUid)
            && (forall i, j :: 0 <= i < j < |v.workloadUids| ==> v.workloadUids[i] < v.workloadUids[j])
            && (forall u :: u in v.workloadUids
                            <==> exists pod, c :: pod in pods && Consumes(pod, claim) && c in Writers(pod)
                                                  && EffectiveUid(pod, c) == Some(u))
  {
    hide Consumes, DescribesAll, Writers, FileGroups, EffectiveUid, Ascending;
    forall u ensures u in AllWriters(ws)
                     <==> exists pod, c :: pod in pods && Consumes(pod, claim) && c in Writers(pod)
                                           && EffectiveUid(pod, c) == Some(u)
    {
      if u in AllWriters(ws) {
        var w :| w in ws && u in w.writerUids;
        var pod := ConsumerOf(ws, pods, claim, w);
        var c :| c in Writers(pod) && EffectiveUid(pod, c) == Some(u);
      }
      if exists pod, c :: pod in pods && Consumes(pod, claim) && c in Writers(pod) && EffectiveUid(pod, c) == Some(u) {
        var pod, c :| pod in pods && Consumes(pod, claim) && c in Writers(pod) && EffectiveUid(pod, c) == Some(u);
        var w := IdentityOf(ws, pods, claim, pod);
        WriterUidIn(ws, w, u);
      }
    }
  }

  /** A mismatch report lists the mover's own UID exactly when some writer runs with it: the code compares the whole
      set of writers, so sharing one UID of several is still a mismatch. */
  lemma MismatchListsTheMoverIff(
    mover: MoverIdentity, pods: seq<Pod>, claim: string, ws: seq<WorkloadIdentity>, readOnly: bool)
    requires DescribesAll(ws, pods, claim) && AssessReadCompat(mover, ws, readOnly).LikelyIncompatible?
    ensures var v := AssessReadCompat(mover, ws, readOnly);
            v.moverUid in v.workloadUids
            <==> exists pod, c :: pod in pods && Consumes(pod, claim) && c in Writers(pod)
                                  && EffectiveUid(pod, c) == mover.uid
  {
    hide Consumes, DescribesAll, Writers, EffectiveUid, Ascending;
    MismatchNamesTheWriters(mover, pods, claim, ws, readOnly);
  }

  function RunsAs(uid: int): Container { Container(Some(NO_CONTEXT.(runAsUser := Some(uid)))) }

  const TWO_WRITERS: Pod :=
    Pod(None, None, None, Some(PodSpec(None, None, [RunsAs(1000), RunsAs(2000)], Some([Some("data")]))))

  /** A mover that runs as one of the two writers is reported as a mismatch whose list contains its own UID. */
  lemma SharedUidIsStillAMismatch(ws: seq<WorkloadIdentity>, readOnly: bool)
    requires DescribesAll(ws, [TWO_WRITERS], "data")
    ensures var v := AssessReadCompat(MoverIdentity(Some(1000), {}, None, false), ws, readOnly);
            v.LikelyIncompatible? && v.moverUid == 1000 && 1000 in v.workloadUids && 2000 in v.workloadUids
  {
    hide DescribesAll, Ascending, AssessReadCompat, FileGroups;
    var mover := MoverIdentity(Some(1000), {}, None, false);
    var pods := [TWO_WRITERS];
    TwoWriters();
    assert TWO_WRITERS in pods;
    assert EffectiveUid(TWO_WRITERS, RunsAs(2000)) != Some(1000);
    assert !EveryWriterIs(pods, "data", 1000);
    assert EveryWriterPinned(pods, "data");
    MismatchIsSound(mover, pods, "data", ws, readOnly);
    MismatchNamesTheWriters(mover, pods, "data", ws, readOnly);
  }

  lemma TwoWriters()
    ensures Consumes(TWO_WRITERS, "data") && Writers(TWO_WRITERS) == [RunsAs(1000), RunsAs(2000)]
    ensures RunsAs(1000) in Writers(TWO_WRITERS) && RunsAs(2000) in Writers(TWO_WRITERS)
    ensures EffectiveUid(TWO_WRITERS, RunsAs(1000)) == Some(1000)
            && EffectiveUid(TWO_WRITERS, RunsAs(2000)) == Some(2000)
  {
    var vs := TWO_WRITERS.spec.value.volumes.GetOr([]);
    assert vs == [Some("data")] && vs[0] == Some("data");
    assert Some("data") in vs;
    assert RunsAs(1000) == Writers(TWO_WRITERS)[0] && RunsAs(2000) == Writers(TWO_WRITERS)[1];
  }

  /** The verdict depends on which pods there are, not on their order or repetition. */
  lemma VerdictIsOrderFree(mover: MoverIdentity, claim: string, readOnly: bool,
                           pods: seq<Pod>, ws: seq<WorkloadIdentity>, pods': seq<Pod>, ws': seq<WorkloadIdentity>)
    requires DescribesAll(ws, pods, claim) && DescribesAll(ws', pods', claim)
    requires forall pod :: pod in pods <==> pod in pods'
    ensures AssessReadCompat(mover, ws, readOnly) == AssessReadCompat(mover, ws', readOnly)
  {
    hide DescribesAll, Ascending;
    SameIdentities(ws, ws', pods, pods', claim);
    SameIdentities(ws', ws, pods', pods, claim);
    assert AllWriters(ws) == AllWriters(ws');
    assert ws == [] <==> ws' == [] by {
      if ws != [] { assert ws[0] in ws; }
      if ws' != [] { assert ws'[0] in ws'; }
    }
  }

  lemma SameIdentities(
    ws: seq<WorkloadIdentity>, ws': seq<WorkloadIdentity>, pods: seq<Pod>, pods': seq<Pod>, claim: string)
    requires DescribesAll(ws, pods, claim) && DescribesAll(ws', pods', claim)
    requires forall pod :: pod in pods ==> pod in pods'
    ensures forall w :: w in ws ==> w in ws'
  {
    hide Consumes, DescribesAll, AllPinned, Writers, WriterUids, FileGroups;
    forall w | w in ws ensures w in ws' {
      var pod := ConsumerOf(ws, pods, claim, w);
      var w' := IdentityOf(ws', pods', claim, pod);
      assert w == w';
    }
  }

  // --- restores ------------------------------------------------------------------------------------

  datatype RestoreBasis = WorkloadOwnsFiles | FsGroupMatch

  datatype RestoreUnknown = ConsumerAbsent | ConsumerUidUnpinned | ModeUnknown

  datatype RestoreCompat =
    | RestoreCompatible(basis: RestoreBasis)
    | RestoreUndecided(why: RestoreUnknown)
    | RestoreMismatch(moverUid: Option<int>, workloadUid: Option<int>)

  function AssessRestoreCompat(
    uid: Option<int>, fsGroup: Option<int>, future: Option<WorkloadIdentity>): RestoreCompat
  {
    if future.None? then RestoreUndecided(ConsumerAbsent)
    else
      var w := future.value;
      if uid.Some? && w.primaryUid == uid then RestoreCompatible(WorkloadOwnsFiles)
      else if fsGroup.Some? && w.fsGroup == fsGroup then RestoreCompatible(FsGroupMatch)
      else if w.primaryUid.None? then RestoreUndecided(ConsumerUidUnpinned)
      else if uid.Some? then RestoreMismatch(uid, w.primaryUid)
      else RestoreUndecided(ModeUnknown)
  }

  /** For a pod about to consume the target: compatible exactly on a shared pinned UID or a shared `fsGroup`, a mismatch
      exactly when both UIDs are pinned and neither is shared. */
  lemma RestoreVerdictIsSound(uid: Option<int>, fsGroup: Option<int>, pod: Pod, w: WorkloadIdentity)
    requires Describes(w, pod)
    ensures var consumer := if Mains(pod) == [] then PodContext(pod).runAsUser else EffectiveUid(pod, Mains(pod)[0]);
            var shared := (uid.Some? && consumer == uid) || (fsGroup.Some? && PodContext(pod).fsGroup == fsGroup);
            var v := AssessRestoreCompat(uid, fsGroup, Some(w));
            && (v.RestoreCompatible? <==> shared)
            && (v.RestoreMismatch? <==> !shared && uid.Some? && consumer.Some?)
            && (v == RestoreCompatible(WorkloadOwnsFiles) <==> uid.Some? && consumer == uid)
            && (v.RestoreMismatch? ==> v == RestoreMismatch(uid, consumer))
            && (v == RestoreUndecided(ConsumerUidUnpinned) <==> !shared && consumer.None?)
            && (v == RestoreUndecided(ModeUnknown) <==> !shared && consumer.Some? && uid.None?)
  {
  }

  /** The two verdicts agree: a mover that matches every writer of a claim exactly also owns, for each pod consuming
      the claim, the files it restores; without a pod there is no verdict at all; and a restore mismatch is reported
      exactly when both UIDs are pinned and the pod shares neither UID nor `fsGroup`, so never beside an exact
      match. */
  lemma RestoreAgreesWithRead(
    mover: MoverIdentity, pods: seq<Pod>, claim: string, ws: seq<WorkloadIdentity>, readOnly: bool, pod: Pod,
    w: WorkloadIdentity)
    requires DescribesAll(ws, pods, claim) && pod in pods && Consumes(pod, claim) && Mains(pod) != []
             && Describes(w, pod)
    ensures var read := AssessReadCompat(mover, ws, readOnly);
            var restore := AssessRestoreCompat(mover.uid, mover.fsGroup, Some(w));
            var consumer := EffectiveUid(pod, Mains(pod)[0]);
            && (read == Compatible(ExactUidMatch) ==> restore == RestoreCompatible(WorkloadOwnsFiles))
            && (restore.RestoreMismatch?
                <==> mover.uid.Some? && consumer.Some? && consumer != mover.uid
                     && !(mover.fsGroup.Some? && PodContext(pod).fsGroup == mover.fsGroup))
            && (restore == RestoreUndecided(ConsumerUidUnpinned)
                <==> consumer.None? && !(mover.fsGroup.Some? && PodContext(pod).fsGroup == mover.fsGroup))
            && (restore.RestoreMismatch? ==> restore == RestoreMismatch(mover.uid, consumer))
    ensures AssessRestoreCompat(mover.uid, mover.fsGroup, None) == RestoreUndecided(ConsumerAbsent)
  {
    hide DescribesAll, Consumes, AssessReadCompat, Describes, FileGroups, PodContext, EffectiveUid;
    RestoreVerdictIsSound(mover.uid, mover.fsGroup, pod, w);
    ExactMatchIsSound(mover, pods, claim, ws, readOnly);
    assert Writers(pod)[|Inits(pod)|] == Mains(pod)[0];
    assert Mains(pod)[0] in Writers(pod);
  }

  // --- which pods and capabilities count ---------------------------------------------------------------

  /** Pods of the operator itself, and pods that do not mount the claim, never change a verdict. */
  lemma OtherPodsDoNotCount(
    mover: MoverIdentity, claim: string, readOnly: bool, pods: seq<Pod>, ws: seq<WorkloadIdentity>, pod: Pod,
    ws': seq<WorkloadIdentity>)
    requires DescribesAll(ws, pods, claim) && DescribesAll(ws', pods + [pod], claim)
    requires || (pod.labels.Some? && "app.kubernetes.io/managed-by" in pod.labels.value
                 && pod.labels.value["app.kubernetes.io/managed-by"] == "kopiur")
             || pod.spec.None? || pod.spec.value.volumes.None? || Some(claim) !in pod.spec.value.volumes.value
    ensures AssessReadCompat(mover, ws, readOnly) == AssessReadCompat(mover, ws', readOnly)
  {
    hide AssessReadCompat, Describes;
    NotCounted(pod, claim);
    assert DescribesAll(ws', pods, claim) by {
      hide Consumes;
      assert forall q :: q in pods + [pod] <==> q in pods || q == pod;
    }
    hide DescribesAll, Consumes;
    VerdictIsOrderFree(mover, claim, readOnly, pods, ws, pods, ws');
  }

  lemma NotCounted(pod: Pod, claim: string)
    requires || (pod.labels.Some? && "app.kubernetes.io/managed-by" in pod.labels.value
                 && pod.labels.value["app.kubernetes.io/managed-by"] == "kopiur")
             || pod.spec.None? || pod.spec.value.volumes.None? || Some(claim) !in pod.spec.value.volumes.value
    ensures !Consumes(pod, claim)
  {
  }

  /** A pod's file groups, field by field: those of its pod context and each container's own. */
  lemma FileGroupsIff(pod: Pod, g: int)
    ensures g in FileGroups(pod)
            <==> pod.spec.Some?
                 && (|| (pod.spec.value.securityContext.Some?
                         && (var sc := pod.spec.value.securityContext.value;
                             || sc.runAsGroup == Some(g) || sc.fsGroup == Some(g)
                             || (sc.supplementalGroups.Some? && g in sc.supplementalGroups.value)))
                     || (exists c :: c in pod.spec.value.containers && GroupOf(c) == Some(g))
                     || (pod.spec.value.initContainers.Some?
                         && exists c :: c in pod.spec.value.initContainers.value && GroupOf(c) == Some(g)))
  {
    assert forall c :: GroupOf(c) == c.securityContext.GetOr(NO_CONTEXT).runAsGroup;
    assert forall c :: c in Writers(pod) <==> c in Inits(pod) || c in Mains(pod);
  }

  function GroupOf(
    c: Container): Option<int> { if c.securityContext.Some? then c.securityContext.value.runAsGroup else None }

  /** A container's UID, field by field: its own, else the pod's, else the image decides. */
  lemma EffectiveUidIff(spec: PodSpec, pod: Pod, c: Container, uid: int)
    requires pod.spec == Some(spec)
    ensures EffectiveUid(pod, c) == Some(uid)
            <==> || (c.securityContext.Some? && c.securityContext.value.runAsUser == Some(uid))
                 || ((c.securityContext.None? || c.securityContext.value.runAsUser.None?)
                     && spec.securityContext.Some? && spec.securityContext.value.runAsUser == Some(uid))
  {
  }

  /** Kubernetes accepts a capability with or without `CAP_`, in either case, and blanks around it: all spellings
      count. */
  lemma EverySpellingBypasses(before: string, after: string)
    requires (forall i :: 0 <= i < |before| ==> before[i] in WHITESPACE)
             && (forall i :: 0 <= i < |after| ==> after[i] in WHITESPACE)
    ensures Capability(before + "CAP_DAC_OVERRIDE" + after) == Capability(before + "dac_override" + after)
            == "DAC_OVERRIDE"
    ensures Capability(before + "cap_dac_read_search" + after) == "DAC_READ_SEARCH"
  {
    hide WHITESPACE;
    Trimmed(before, "CAP_DAC_OVERRIDE", after);
    Trimmed(before, "dac_override", after);
    Trimmed(before, "cap_dac_read_search", after);
    Spellings();
  }

  function Upper(t: string): string { seq(|t|, i requires 0 <= i < |t| => UpperChar(t[i])) }

  /** `t` is this upper-case text with some of its letters in lower case. */
  predicate Spells(t: string, upper: string) {
    |t| == |upper| && forall i :: 0 <= i < |t|
                                  ==> t[i] == upper[i]
                                      || ('A' <= upper[i] <= 'Z' && t[i] as int == upper[i] as int + 32)
  }

  lemma UpperSpells(t: string, u: string)
    requires forall i :: 0 <= i < |u| ==> !('a' <= u[i] <= 'z')
    ensures Upper(t) == u <==> Spells(t, u)
  {
    if Spells(t, u) {
      forall i | 0 <= i < |t| ensures Upper(t)[i] == u[i] {}
    }
    if Upper(t) == u {
      forall i | 0 <= i < |t| ensures t[i] == u[i] || ('A' <= u[i] <= 'Z' && t[i] as int == u[i] as int + 32) {
        assert Upper(t)[i] == u[i];
      }
    }
  }

  lemma CapabilityMeans(c: string, name: string)
    requires name in {"DAC_OVERRIDE", "DAC_READ_SEARCH"}
    ensures Capability(c) == name <==> Spells(Trim(c, WHITESPACE), name) || Spells(Trim(c, WHITESPACE), "CAP_" + name)
  {
    hide Spells, Trim, WHITESPACE;
    var t := Trim(c, WHITESPACE);
    var up := Upper(t);
    assert name[0] == 'D' && ("CAP_" + name)[0] == 'C';
    UpperSpells(t, name);
    UpperSpells(t, "CAP_" + name);
    if "CAP_" <= up {
      assert up == "CAP_" + up[4..] && up[0] == 'C';
    } else {
      assert up != "CAP_" + name;
    }
  }

  /** Reading past permission checks takes `privileged: true`, or one of the two capabilities in any accepted
      spelling. */
  lemma BypassesIff(sc: SecurityContext)
    ensures BypassesReadChecks(sc)
            <==> || sc.privileged == Some(true)
                 || (sc.capabilitiesAdded.Some?
                     && exists c, name :: c in sc.capabilitiesAdded.value
                                          && name in {"DAC_OVERRIDE", "CAP_DAC_OVERRIDE", "DAC_READ_SEARCH",
                                                      "CAP_DAC_READ_SEARCH"}
                                          && Spells(Trim(c, WHITESPACE), name))
  {
    hide Spells, Capability, Trim, WHITESPACE;
    assert "CAP_" + "DAC_OVERRIDE" == "CAP_DAC_OVERRIDE" && "CAP_" + "DAC_READ_SEARCH" == "CAP_DAC_READ_SEARCH";
    if sc.capabilitiesAdded.Some? {
      forall c | c in sc.capabilitiesAdded.value
        ensures Capability(c) in {"DAC_OVERRIDE", "DAC_READ_SEARCH"}
                <==> exists name
                     :: name in {"DAC_OVERRIDE", "CAP_DAC_OVERRIDE", "DAC_READ_SEARCH", "CAP_DAC_READ_SEARCH"}
                                    && Spells(Trim(c, WHITESPACE), name)
      {
        CapabilityMeans(c, "DAC_OVERRIDE");
        CapabilityMeans(c, "DAC_READ_SEARCH");
      }
    }
  }

  lemma Spellings()
    ensures "DAC_OVERRIDE"[0] != "CAP_"[0]
    ensures Upper("CAP_DAC_OVERRIDE") == "CAP_" + "DAC_OVERRIDE" && Upper("dac_override") == "DAC_OVERRIDE"
    ensures Upper("cap_dac_read_search") == "CAP_" + "DAC_READ_SEARCH" && !("CAP_" <= "DAC_OVERRIDE")
  {
  }

  lemma Trimmed(before: string, w: string, after: string)
    requires (forall i :: 0 <= i < |before| ==> before[i] in WHITESPACE)
             && (forall i :: 0 <= i < |after| ==> after[i] in WHITESPACE)
    requires w != "" && w[0] in {'C', 'c', 'd'} && w[|w| - 1] in {'E', 'e', 'h'}
    ensures Trim(before + w + after, WHITESPACE) == w
  {
    assert forall c :: c in {'C', 'c', 'd', 'E', 'e', 'h'} ==> c !in WHITESPACE;
    hide WHITESPACE;
    assert before + w + after == before + (w + after);
    AllBlank(before);
    AllBlank(after);
    TrimStartConcat(before, w + after, WHITESPACE);
    TrimEndConcat(w, after, WHITESPACE);
  }

  lemma AllBlank(s: string)
    requires forall i :: 0 <= i < |s| ==> s[i] in WHITESPACE
    ensures TrimStart(s, WHITESPACE) == "" && TrimEnd(s, WHITESPACE) == ""
  {
    hide WHITESPACE, TrimStart, TrimEnd;
    TrimStartSpec(s, WHITESPACE);
    TrimEndSpec(s, WHITESPACE);
  }
}
