/** Generated object names: bounded by 63 bytes, legible where there is room, and always carrying their
    hash tag unclipped. A string here is the sequence of its UTF-8 bytes, one `char` per byte. */
module Naming {
  import opened Text
  import opened Refs
  import opened Utf8

  const MAX_CHILD_NAME: nat := 63
  const FANOUT_MARKER: string := "-pvc-"
  const REPO_MARKER: string := "-repo-"

  // --- clipping ------------------------------------------------------------------------

  function Clip(s: string, keep: nat): string {
    if keep >= |s| then s
    else if IsBoundary(s, keep) then s[..keep]
    else Clip(s, keep - 1)
  }

  /** The longest prefix within `keep` bytes that ends on a character boundary. */
  lemma {:induction false} ClipIsLongest(s: string, keep: nat)
    ensures Clip(s, keep) <= s && |Clip(s, keep)| <= keep && IsBoundary(s, |Clip(s, keep)|)
    ensures forall i :: |Clip(s, keep)| < i <= keep && i <= |s| ==> !IsBoundary(s, i)
    decreases keep
  {
    if keep < |s| && !IsBoundary(s, keep) {
      ClipIsLongest(s, keep - 1);
    }
  }

  method ClipLoop(s: string, keep: nat) returns (r: string)
    ensures r == Clip(s, keep)
  {
    if keep >= |s| {
      return s;
    }
    var end := keep;
    while end > 0 && !IsBoundary(s, end)
      invariant 0 <= end <= keep
      invariant Clip(s, end) == Clip(s, keep)
    {
      end := end - 1;
    }
    r := s[..end];
  }

  // --- the hash tag ----------------------------------------------------------------------

  const FNV_OFFSET: bv64 := 0xcbf2_9ce4_8422_2325
  const FNV_PRIME: bv64 := 0x100_0000_01b3

  /** FNV-1a over the bytes of `s`, wrapping at 64 bits. */
  function Fnv1a(s: string): bv64 {
    if s == "" then FNV_OFFSET else FnvStep(Fnv1a(s[..|s| - 1]), s[|s| - 1])
  }

  function FnvStep(hash: bv64, c: char): bv64 { FnvByte(hash, (c as int % 256) as bv64) }

  function FnvByte(hash: bv64, byte: bv64): bv64 { (hash ^ byte) * FNV_PRIME }

  predicate IsHex(c: char) { '0' <= c <= '9' || 'a' <= c <= 'f' }

  function HexDigit(d: bv4): (c: char)
    ensures IsHex(c)
  {
    if d < 10 then ('0' as int + d as int) as char else ('a' as int + d as int - 10) as char
  }

  /** The low 32 bits as eight hex digits. */
  function Hex8(h: bv64): (r: string)
    ensures |r| == 8 && forall i :: 0 <= i < 8 ==> IsHex(r[i])
  {
    [HexDigit(((h >> 28) & 0xF) as bv4), HexDigit(((h >> 24) & 0xF) as bv4), HexDigit(((h >> 20) & 0xF) as bv4),
     HexDigit(((h >> 16) & 0xF) as bv4), HexDigit(((h >> 12) & 0xF) as bv4), HexDigit(((h >> 8) & 0xF) as bv4),
     HexDigit(((h >> 4) & 0xF) as bv4), HexDigit((h & 0xF) as bv4)]
  }

  function Fnv8(s: string): (r: string)
    ensures |r| == 8 && forall i :: 0 <= i < 8 ==> IsHex(r[i])
  {
    Hex8(Fnv1a(s))
  }

  method Fnv8Loop(input: string) returns (r: string)
    ensures r == Fnv8(input)
  {
    var hash := FNV_OFFSET;
    for i := 0 to |input|
      invariant hash == Fnv1a(input[..i])
    {
      assert input[..i + 1][..i] == input[..i];
      hash := FnvStep(hash, input[i]);
    }
    assert input[..|input|] == input;
    r := Hex8(hash);
  }

  /** The published FNV-1a test vectors of the empty text and of `a`. */
  lemma FnvTestVectors()
    ensures Fnv1a("") == 0xcbf2_9ce4_8422_2325 && Fnv8("") == "84222325"
    ensures Fnv1a("a") == 0xaf63_dc4c_8601_ec8c && Fnv8("a") == "8601ec8c"
  {
    hide FnvByte, Hex8;
    assert "a"[..0] == "";
    ByteOfA();
    StepOfA();
    HexOfNothing();
    HexOfA();
  }

  lemma ByteOfA()
    ensures ('a' as int % 256) as bv64 == 0x61
  {
  }

  lemma StepOfA()
    ensures FnvByte(0xcbf2_9ce4_8422_2325, 0x61) == 0xaf63_dc4c_8601_ec8c
  {
  }

  lemma HexOfNothing()
    ensures Hex8(0xcbf2_9ce4_8422_2325) == "84222325"
  {
    var h: bv64 := 0xcbf2_9ce4_8422_2325;
    assert ((h >> 28) & 0xF) as bv4 == 8 && ((h >> 24) & 0xF) as bv4 == 4 && ((h >> 20) & 0xF) as bv4 == 2;
    assert ((h >> 16) & 0xF) as bv4 == 2 && ((h >> 12) & 0xF) as bv4 == 2 && ((h >> 8) & 0xF) as bv4 == 3;
    assert ((h >> 4) & 0xF) as bv4 == 2 && (h & 0xF) as bv4 == 5;
  }

  lemma HexOfA()
    ensures Hex8(0xaf63_dc4c_8601_ec8c) == "8601ec8c"
  {
    var h: bv64 := 0xaf63_dc4c_8601_ec8c;
    assert ((h >> 28) & 0xF) as bv4 == 8 && ((h >> 24) & 0xF) as bv4 == 6 && ((h >> 20) & 0xF) as bv4 == 0;
    assert ((h >> 16) & 0xF) as bv4 == 1 && ((h >> 12) & 0xF) as bv4 == 14 && ((h >> 8) & 0xF) as bv4 == 12;
    assert ((h >> 4) & 0xF) as bv4 == 8 && (h & 0xF) as bv4 == 12;
  }

  // --- names -------------------------------------------------------------------------------

  /** One lowercase alphanumeric or dash per character: continuation bytes belong to a character already replaced. */
  function SanitizeDns1123(s: string): string {
    if s == "" then ""
    else
      SanitizeDns1123(s[..|s| - 1]) + SlugOf(s[|s| - 1])
  }

  function SlugOf(c: char): string {
    if 'a' <= c <= 'z' || IsDigit(c) then [c]
    else if 'A' <= c <= 'Z' then [(c as int + 32) as char]
    else if IsContinuation(c) then ""
    else "-"
  }

  function Min(a: nat, b: nat): nat { if a <= b then a else b }

  function Monus(a: nat, b: nat): nat { if a <= b then 0 else a - b }

  /** Bytes kept of a leading and a trailing segment: all of both when they fit, otherwise up to a third of
      the room for the trailing one and the rest for the leading one. */
  function KeepTwo(fixed: nat, head: nat, tail: nat): (r: (nat, nat))
    requires fixed <= MAX_CHILD_NAME
    ensures r.0 <= head && r.1 <= tail && fixed + r.0 + r.1 <= MAX_CHILD_NAME
    ensures fixed + head + tail <= MAX_CHILD_NAME ==> r == (head, tail)
    ensures r.0 == head || fixed + r.0 + r.1 == MAX_CHILD_NAME
    ensures r.1 >= Min(tail, (MAX_CHILD_NAME - fixed) / 3) && r.0 >= Min(head, (MAX_CHILD_NAME - fixed) / 3 * 2)
  {
    if fixed + head + tail > MAX_CHILD_NAME then
      var room := Monus(MAX_CHILD_NAME, fixed);
      var tailKeep := Min(tail, room / 3);
      (Min(head, Monus(room, tailKeep)), tailKeep)
    else (head, tail)
  }

  /** The same for base, PVC slug and repository slug: the base is clipped first, then the PVC, then the repository. */
  function KeepThree(fixed: nat, base: nat, pvc: nat, repo: nat): (r: (nat, nat, nat))
    requires fixed <= MAX_CHILD_NAME
    ensures r.0 <= base && r.1 <= pvc && r.2 <= repo && fixed + r.0 + r.1 + r.2 <= MAX_CHILD_NAME
    ensures fixed + base + pvc + repo <= MAX_CHILD_NAME ==> r == (base, pvc, repo)
    ensures r.0 == base || fixed + r.0 + r.1 + r.2 == MAX_CHILD_NAME
    ensures var third := (MAX_CHILD_NAME - fixed) / 3;
            r.0 >= Min(base, third) && r.1 >= Min(pvc, third) && r.2 >= Min(repo, third)
  {
    if fixed + base + pvc + repo > MAX_CHILD_NAME then
      var room := Monus(MAX_CHILD_NAME, fixed);
      var repoKeep := Min(repo, room / 3);
      var pvcKeep := Min(pvc, Monus(room, repoKeep) / 2);
      (Min(base, Monus(room, repoKeep + pvcKeep)), pvcKeep, repoKeep)
    else (base, pvc, repo)
  }

  /** What the tag of a fan-out child hashes: the full, unclipped tuple. */
  function TagInput(base: string, member: Option<(string, string)>, rkey: Option<string>): string {
    base
    + (if member.Some? then "\n" + member.value.0 + "/" + member.value.1 else "")
    + (if rkey.Some? then "\n" + rkey.value else "")
  }

  function MemberChildName(
    base: string, policyNs: string, pvcNs: string, pvcName: string, repo: Option<(string, string)>): string
  {
    var rkey := if repo.Some? then Some(repo.value.0) else None;
    var tag := Fnv8(TagInput(base, Some((pvcNs, pvcName)), rkey));
    var slug := SanitizeDns1123(if pvcNs == policyNs then pvcName else pvcNs + "-" + pvcName);
    match repo
    case None =>
      var fixed := |FANOUT_MARKER| + 1 + |tag|;
      var (baseKeep, slugKeep) := KeepTwo(fixed, |base|, |slug|);
      Trim(Clip(base, baseKeep) + FANOUT_MARKER + Clip(slug, slugKeep) + "-" + tag, {'-'})
    case Some((_, repoName)) =>
      var rslug := SanitizeDns1123(repoName);
      var fixed := |FANOUT_MARKER| + |REPO_MARKER| + 1 + |tag|;
      var (baseKeep, pslugKeep, rslugKeep) := KeepThree(fixed, |base|, |slug|, |rslug|);
      var child := Clip(base, baseKeep) + FANOUT_MARKER + Clip(slug, pslugKeep);
      Trim(child + REPO_MARKER + Clip(rslug, rslugKeep) + "-" + tag, {'-'})
  }

  function FanoutChildNameFor(
    base: string, policyNs: string, member: Option<(string, string)>, repo: Option<RepositoryRef>): string
  {
    var r: Option<(string, string)> :=
      if repo.Some? then Some((RepoKey(repo.value, policyNs), repo.value.name)) else None;
    match (member, r)
    case (None, None) => Trim(Clip(base, MAX_CHILD_NAME), {'-'})
    case (Some((pvcNs, pvcName)), _) => MemberChildName(base, policyNs, pvcNs, pvcName, r)
    case (None, Some((rkey, repoName))) =>
      var tag := Fnv8(TagInput(base, None, Some(rkey)));
      var rslug := SanitizeDns1123(repoName);
      var fixed := |REPO_MARKER| + 1 + |tag|;
      var (baseKeep, rslugKeep) := KeepTwo(fixed, |base|, |rslug|);
      Trim(Clip(base, baseKeep) + REPO_MARKER + Clip(rslug, rslugKeep) + "-" + tag, {'-'})
  }

  function FanoutChildName(base: string, policyNs: string, pvcNs: string, pvcName: string): string {
    FanoutChildNameFor(base, policyNs, Some((pvcNs, pvcName)), None)
  }

  function PopulateJobName(restore: string, consumerUid: string): string {
    var tag := Fnv8(consumerUid);
    var keep := Monus(MAX_CHILD_NAME, |"-populate-"| + |tag|);
    Trim(TrimEnd(Clip(restore, keep), {'-'}) + "-populate-" + tag, {'-'})
  }

  /** What a group's tag hashes: namespace, source and, per repository, its key. */
  function GroupTagInput(namespace: string, sourceIndex: nat, repoKey: Option<string>): string {
    namespace + "#" + Show(sourceIndex) + (if repoKey.Some? then "#" + repoKey.value else "")
  }

  function GroupTag(namespace: string, sourceIndex: nat, repoKey: Option<string>): (t: string)
    ensures |t| == 8 && forall i :: 0 <= i < 8 ==> IsHex(t[i])
  {
    Fnv8(GroupTagInput(namespace, sourceIndex, repoKey))
  }

  function GroupName(base: string, namespace: string, sourceIndex: nat, repoKey: Option<string>): string {
    var suffix := "-grp";
    var tag := GroupTag(namespace, sourceIndex, repoKey);
    var room := MAX_CHILD_NAME - |suffix| - |tag| - 1;
    Trim(Clip(base, room) + "-" + tag + suffix, {'-'})
  }

  function CacheTag(repo: RepositoryRef, policyNs: string): (t: string)
    ensures |t| == 6 && forall i :: 0 <= i < 6 ==> IsHex(t[i])
  {
    Fnv8(RepoKey(repo, policyNs))[..6]
  }

  function CachePvcName(policyName: string, policyNs: string, repo: Option<RepositoryRef>): string {
    match repo
    case None => "kopiur-cache-" + policyName
    case Some(r) =>
      var (policy, repository) := CacheSlugs(policyName, r);
      Trim("kopiur-cache-" + policy + "-" + repository + "-" + CacheTag(r, policyNs), {'-'})
  }

  /** What a cache name keeps of the policy's and the repository's slug beside the six-digit tag. */
  function CacheSlugs(policyName: string, r: RepositoryRef): (string, string) {
    var pslug := SanitizeDns1123(policyName);
    var rslug := SanitizeDns1123(r.name);
    var fixed := |"kopiur-cache-"| + 2 + 6;
    var (pslugKeep, rslugKeep) := KeepTwo(fixed, |pslug|, |rslug|);
    (TrimEnd(Clip(pslug, pslugKeep), {'-'}), TrimEnd(Clip(rslug, rslugKeep), {'-'}))
  }

  // --- bounded, and the tag survives ---------------------------------------------------------

  predicate EndsWith(s: string, t: string) { |t| <= |s| && s[|s| - |t|..] == t }

  /** A legal name: within 63 bytes, no dash at either end, `tail` intact at the end. */
  predicate WellTagged(name: string, tail: string) {
    |name| <= MAX_CHILD_NAME && EndsWith(name, tail) && name != "" && name[0] != '-' && name[|name| - 1] != '-'
  }

  lemma TrimKeepsTail(head: string, tail: string)
    requires tail != "" && tail[0] != '-' && tail[|tail| - 1] != '-'
    requires |head| + |tail| <= MAX_CHILD_NAME
    ensures WellTagged(Trim(head + tail, {'-'}), tail)
  {
    hide TrimStart, TrimEnd;
    var s := head + tail;
    var t := TrimStart(s, {'-'});
    TrimStartSpec(s, {'-'});
    assert s[|head|] == tail[0];
    assert |t| >= |tail|;
    assert t == s[|s| - |t|..];
    assert t[|t| - |tail|..] == s[|head|..] == tail;
    assert t[|t| - 1] == s[|s| - 1] == tail[|tail| - 1];
    NothingToTrim(t);
  }

  lemma ClipLength(s: string, keep: nat)
    ensures |Clip(s, keep)| <= Min(keep, |s|)
  {
    ClipIsLongest(s, keep);
  }

  /** Every fan-out child name is at most 63 bytes, has no dash at either end and ends in the tag of its full tuple. */
  lemma FanoutNamesAreTagged(
    base: string, policyNs: string, member: Option<(string, string)>, repo: Option<RepositoryRef>)
    requires member.Some? || repo.Some?
    ensures var rkey := if repo.Some? then Some(RepoKey(repo.value, policyNs)) else None;
            WellTagged(FanoutChildNameFor(base, policyNs, member, repo), Fnv8(TagInput(base, member, rkey)))
  {
    if member.Some? {
      MemberNamesAreTagged(base, policyNs, member.value.0, member.value.1,
                           if repo.Some? then Some((RepoKey(repo.value, policyNs), repo.value.name)) else None);
    } else {
      var tag := Fnv8(TagInput(base, None, Some(RepoKey(repo.value, policyNs))));
      var rslug := SanitizeDns1123(repo.value.name);
      var (baseKeep, rslugKeep) := KeepTwo(15, |base|, |rslug|);
      ClipLength(rslug, rslugKeep);
      ClipLength(base, baseKeep);
      TrimKeepsTail(Clip(base, baseKeep) + REPO_MARKER + Clip(rslug, rslugKeep) + "-", tag);
    }
  }

  lemma MemberNamesAreTagged(
    base: string, policyNs: string, pvcNs: string, pvcName: string, repo: Option<(string, string)>)
    ensures WellTagged(MemberChildName(base, policyNs, pvcNs, pvcName, repo),
                       Fnv8(TagInput(base, Some((pvcNs, pvcName)), if repo.Some? then Some(repo.value.0) else None)))
  {
    var rkey := if repo.Some? then Some(repo.value.0) else None;
    var tag := Fnv8(TagInput(base, Some((pvcNs, pvcName)), rkey));
    var slug := SanitizeDns1123(if pvcNs == policyNs then pvcName else pvcNs + "-" + pvcName);
    if repo.None? {
      var (baseKeep, slugKeep) := KeepTwo(14, |base|, |slug|);
      ClipLength(slug, slugKeep);
      ClipLength(base, baseKeep);
      TrimKeepsTail(Clip(base, baseKeep) + FANOUT_MARKER + Clip(slug, slugKeep) + "-", tag);
    } else {
      var rslug := SanitizeDns1123(repo.value.1);
      var (baseKeep, pslugKeep, rslugKeep) := KeepThree(20, |base|, |slug|, |rslug|);
      ClipLength(rslug, rslugKeep);
      ClipLength(slug, pslugKeep);
      ClipLength(base, baseKeep);
      var child := Clip(base, baseKeep) + FANOUT_MARKER + Clip(slug, pslugKeep);
      TrimKeepsTail(child + REPO_MARKER + Clip(rslug, rslugKeep) + "-", tag);
    }
  }

  lemma PopulateNamesAreTagged(restore: string, uid: string)
    ensures WellTagged(PopulateJobName(restore, uid), Fnv8(uid))
  {
    ClipLength(restore, 45);
    TrimEndSpec(Clip(restore, 45), {'-'});
    TrimKeepsTail(TrimEnd(Clip(restore, 45), {'-'}) + "-populate-", Fnv8(uid));
  }

  lemma GroupNamesAreTagged(base: string, namespace: string, sourceIndex: nat, repoKey: Option<string>)
    ensures WellTagged(GroupName(base, namespace, sourceIndex, repoKey),
                       GroupTag(namespace, sourceIndex, repoKey) + "-grp")
  {
    var tag := GroupTag(namespace, sourceIndex, repoKey);
    ClipLength(base, 50);
    assert Clip(base, 50) + "-" + tag + "-grp" == Clip(base, 50) + "-" + (tag + "-grp");
    TrimKeepsTail(Clip(base, 50) + "-", tag + "-grp");
  }

  lemma CacheNamesAreTagged(policyName: string, policyNs: string, repo: RepositoryRef)
    ensures WellTagged(CachePvcName(policyName, policyNs, Some(repo)), CacheTag(repo, policyNs))
  {
    hide SanitizeDns1123, Clip, CacheTag;
    var tag := CacheTag(repo, policyNs);
    var pslug := SanitizeDns1123(policyName);
    var rslug := SanitizeDns1123(repo.name);
    var (pslugKeep, rslugKeep) := KeepTwo(21, |pslug|, |rslug|);
    TrimmedClipLength(pslug, pslugKeep);
    TrimmedClipLength(rslug, rslugKeep);
    var (policy, repository) := CacheSlugs(policyName, repo);
    TrimKeepsTail("kopiur-cache-" + policy + "-" + repository + "-", tag);
  }

  lemma TrimmedClipLength(s: string, keep: nat)
    ensures |TrimEnd(Clip(s, keep), {'-'})| <= keep
  {
    ClipLength(s, keep);
    TrimEndSpec(Clip(s, keep), {'-'});
  }

  // --- what a tag leaves out ---------------------------------------------------------------------

  /** A group name spelled out: what is left of the clipped base, then the tag. */
  lemma GroupNameParts(base: string, namespace: string, sourceIndex: nat, repoKey: Option<string>)
    ensures var head := TrimStart(Clip(base, 50), {'-'});
            GroupName(base, namespace, sourceIndex, repoKey)
            == (if head == "" then "" else head + "-") + (GroupTag(namespace, sourceIndex, repoKey) + "-grp")
  {
    hide GroupTag, Clip, TrimStart, TrimEnd;
    var tag := GroupTag(namespace, sourceIndex, repoKey);
    var clipped := Clip(base, 50);
    var tail := tag + "-grp";
    var head := TrimStart(clipped, {'-'});
    assert clipped + "-" + tag + "-grp" == clipped + ("-" + tail);
    TrimStartConcat(clipped, "-" + tail, {'-'});
    DashThenTail(tail);
    var rest := (if head == "" then "" else head + "-") + tail;
    assert head != "" ==> head + ("-" + tail) == rest;
    assert "" + tail == tail;
    NothingToTrim(rest);
  }

  lemma NothingToTrim(s: string)
    requires s != "" && s[|s| - 1] != '-'
    ensures TrimEnd(s, {'-'}) == s
  {
  }

  lemma DashThenTail(tail: string)
    requires tail != "" && tail[0] != '-'
    ensures TrimStart("-" + tail, {'-'}) == tail
  {
    assert ("-" + tail)[1..] == tail;
  }

  lemma SameTail(x: string, a: string, y: string, b: string)
    requires |a| == |b|
    ensures x + a == y + b <==> x == y && a == b
  {
    if x + a == y + b {
      assert |x| == |y|;
      assert x == (x + a)[..|x|] == (y + b)[..|y|] == y;
      assert a == (x + a)[|x|..] == (y + b)[|y|..] == b;
    }
  }

  /** Two group names are equal exactly when their tags are and the clipped bases agree. The tag does not hash the base,
      so nothing keeps two bases apart that differ only past the clip. */
  lemma GroupNamesCollideIff(
    b1: string, ns1: string, i1: nat, k1: Option<string>, b2: string, ns2: string, i2: nat, k2: Option<string>)
    ensures GroupName(b1, ns1, i1, k1) == GroupName(b2, ns2, i2, k2)
            <==> GroupTag(ns1, i1, k1) == GroupTag(ns2, i2, k2)
                 && TrimStart(Clip(b1, 50), {'-'}) == TrimStart(Clip(b2, 50), {'-'})
  {
    hide GroupName, GroupTag, Clip, TrimStart;
    GroupNameParts(b1, ns1, i1, k1);
    GroupNameParts(b2, ns2, i2, k2);
    var h1, h2 := TrimStart(Clip(b1, 50), {'-'}), TrimStart(Clip(b2, 50), {'-'});
    var x1, x2 := if h1 == "" then "" else h1 + "-", if h2 == "" then "" else h2 + "-";
    var t1, t2 := GroupTag(ns1, i1, k1), GroupTag(ns2, i2, k2);
    SameTail(x1, t1 + "-grp", x2, t2 + "-grp");
    SameTail(t1, "-grp", t2, "-grp");
    SameTail(h1, "-", h2, "-");
  }

  /** Two slots of one schedule and policy whose names take 50 bytes: the digits of the slot are clipped away, and the
      group snapshots of the two slots get one name. */
  lemma TwoSlotsOneGroup(namespace: string, sourceIndex: nat, repoKey: Option<string>)
    ensures var base := Letters(24, 's') + "-" + Letters(24, 'p') + "-";
            && base + "20240101000000" != base + "20240102000000"
            && GroupName(base + "20240101000000", namespace, sourceIndex, repoKey)
               == GroupName(base + "20240102000000", namespace, sourceIndex, repoKey)
  {
    hide GroupName, GroupTag;
    var base := Letters(24, 's') + "-" + Letters(24, 'p') + "-";
    var b1, b2 := base + "20240101000000", base + "20240102000000";
    assert |base| == 50 && b1[57] != b2[57];
    assert b1[..50] == base && b2[..50] == base;
    assert IsBoundary(b1, 50) && IsBoundary(b2, 50);
    GroupNamesCollideIff(b1, namespace, sourceIndex, repoKey, b2, namespace, sourceIndex, repoKey);
  }

  /** Without a repository the cache name is the policy's own, whole: two policies share it exactly when they have one
      name, and no budget applies. */
  lemma SingleCacheNames(p1: string, p2: string, ns: string)
    ensures CachePvcName(p1, ns, None) == CachePvcName(p2, ns, None) <==> p1 == p2
    ensures |CachePvcName(p1, ns, None)| == |"kopiur-cache-"| + |p1| && EndsWith(CachePvcName(p1, ns, None), p1)
    ensures CachePvcName("nightly", ns, None) == "kopiur-cache-nightly"
  {
    SameHead("kopiur-cache-", p1, p2);
  }

  /** Two per-repository cache names are equal exactly when their tags are and the kept slugs, joined, agree. */
  lemma CacheNamesCollideIff(p1: string, ns1: string, r1: RepositoryRef, p2: string, ns2: string, r2: RepositoryRef)
    ensures CachePvcName(p1, ns1, Some(r1)) == CachePvcName(p2, ns2, Some(r2))
            <==> CacheTag(r1, ns1) == CacheTag(r2, ns2)
                 && CacheSlugs(p1, r1).0 + "-" + CacheSlugs(p1, r1).1
                    == CacheSlugs(p2, r2).0 + "-" + CacheSlugs(p2, r2).1
  {
    hide CachePvcName, CacheTag, CacheSlugs;
    CacheNameParts(p1, ns1, r1);
    CacheNameParts(p2, ns2, r2);
    var m1, m2 := CacheSlugs(p1, r1).0 + "-" + CacheSlugs(p1, r1).1, CacheSlugs(p2, r2).0 + "-" + CacheSlugs(p2, r2).1;
    var t1, t2 := CacheTag(r1, ns1), CacheTag(r2, ns2);
    SameTail("kopiur-cache-" + m1, "-" + t1, "kopiur-cache-" + m2, "-" + t2);
    SameHead("kopiur-cache-", m1, m2);
    SameHead("-", t1, t2);
  }

  lemma SameHead(x: string, a: string, b: string)
    ensures x + a == x + b <==> a == b
  {
    assert (x + a)[|x|..] == a && (x + b)[|x|..] == b;
  }

  lemma CacheNameParts(policyName: string, ns: string, r: RepositoryRef)
    ensures CachePvcName(policyName, ns, Some(r))
            == "kopiur-cache-" + (CacheSlugs(policyName, r).0 + "-" + CacheSlugs(policyName, r).1)
               + ("-" + CacheTag(r, ns))
  {
    hide CacheTag, CacheSlugs;
    var (policy, repository) := CacheSlugs(policyName, r);
    var tag := CacheTag(r, ns);
    var name := "kopiur-cache-" + policy + "-" + repository + "-" + tag;
    assert name == "kopiur-cache-" + (policy + "-" + repository) + ("-" + tag);
    assert name[0] == 'k' && name[|name| - 1] == tag[5] && tag[5] != '-';
    assert TrimStart(name, {'-'}) == name;
    assert TrimEnd(name, {'-'}) == name;
  }

  /** Over budget the repository's slug gets up to a third of the room and the policy's the rest. */
  predicate CacheOverBudget(policyName: string, r: RepositoryRef) {
    21 + |SanitizeDns1123(policyName)| + |SanitizeDns1123(r.name)| > MAX_CHILD_NAME
  }

  lemma OverBudgetSlugs(policyName: string, r: RepositoryRef)
    requires CacheOverBudget(policyName, r)
    ensures var pslug, rslug := SanitizeDns1123(policyName), SanitizeDns1123(r.name);
            var repoKeep := Min(|rslug|, 14);
            CacheSlugs(policyName, r)
            == (TrimEnd(Clip(pslug, Min(|pslug|, 42 - repoKeep)), {'-'}), TrimEnd(Clip(rslug, repoKeep), {'-'}))
  {
    hide SanitizeDns1123, Clip, TrimEnd;
  }

  /** Two policies whose slugs are clipped share one cache for a repository exactly when what is kept of them agrees:
      the tag hashes the repository alone. */
  lemma PoliciesShareACacheIff(p1: string, p2: string, ns: string, r: RepositoryRef)
    requires CacheOverBudget(p1, r) && CacheOverBudget(p2, r)
    ensures CachePvcName(p1, ns, Some(r)) == CachePvcName(p2, ns, Some(r))
            <==> CacheSlugs(p1, r).0 == CacheSlugs(p2, r).0
  {
    hide CachePvcName, CacheTag, CacheSlugs, SanitizeDns1123, Clip, TrimEnd;
    OverBudgetSlugs(p1, r);
    OverBudgetSlugs(p2, r);
    CacheNamesCollideIff(p1, ns, r, p2, ns, r);
    CommonTail(CacheSlugs(p1, r).0, CacheSlugs(p2, r).0, CacheSlugs(p1, r).1);
  }

  lemma CommonTail(x: string, y: string, z: string)
    ensures x + "-" + z == y + "-" + z <==> x == y
  {
    assert x + "-" + z == x + ("-" + z) && y + "-" + z == y + ("-" + z);
    SameTail(x, "-" + z, y, "-" + z);
  }

  /** DNS policy names that agree on their first 42 bytes share one cache name for every repository. */
  lemma LongPoliciesShareACache(p1: string, p2: string, ns: string, r: RepositoryRef)
    requires IsDns(p1) && IsDns(p2) && |p1| > 42 && |p2| > 42 && p1[..42] == p2[..42]
    ensures CachePvcName(p1, ns, Some(r)) == CachePvcName(p2, ns, Some(r))
  {
    hide CachePvcName, CacheTag, CacheSlugs, SanitizeDns1123, Clip, TrimEnd, IsDns;
    SlugIsDns(p1);
    SlugIsDns(p2);
    OverBudgetSlugs(p1, r);
    OverBudgetSlugs(p2, r);
    PoliciesShareACacheIff(p1, p2, ns, r);
    var keep := 42 - Min(|SanitizeDns1123(r.name)|, 14);
    ClipDns(p1, keep);
    ClipDns(p2, keep);
    assert p1[..keep] == p1[..42][..keep] && p2[..keep] == p2[..42][..keep];
  }

  lemma ClipDns(s: string, keep: nat)
    requires IsDns(s) && keep <= |s|
    ensures Clip(s, keep) == s[..keep]
  {
    assert keep == |s| ==> s[..keep] == s;
    assert keep < |s| ==> IsDnsChar(s[keep]);
  }

  /** Equal names mean equal tags over the full unclipped tuples, whatever was clipped. */
  lemma EqualNamesEqualTags(
    b1: string, ns1: string, m1: Option<(string, string)>, r1: Option<RepositoryRef>,
    b2: string, ns2: string, m2: Option<(string, string)>, r2: Option<RepositoryRef>)
    requires m1.Some? || r1.Some?
    requires m2.Some? || r2.Some?
    requires FanoutChildNameFor(b1, ns1, m1, r1) == FanoutChildNameFor(b2, ns2, m2, r2)
    ensures Fnv8(TagInput(b1, m1, if r1.Some? then Some(RepoKey(r1.value, ns1)) else None))
            == Fnv8(TagInput(b2, m2, if r2.Some? then Some(RepoKey(r2.value, ns2)) else None))
  {
    FanoutNamesAreTagged(b1, ns1, m1, r1);
    FanoutNamesAreTagged(b2, ns2, m2, r2);
  }

  predicate IsDnsChar(c: char) { 'a' <= c <= 'z' || IsDigit(c) || c == '-' }

  predicate IsDns(s: string) { forall i :: 0 <= i < |s| ==> IsDnsChar(s[i]) }

  lemma SlugOfIsDns(c: char)
    ensures IsDns(SlugOf(c)) && (IsDnsChar(c) ==> SlugOf(c) == [c])
  {
  }

  /** Slugs are DNS text, and DNS text is its own slug. */
  lemma {:induction false} SlugIsDns(s: string)
    ensures IsDns(SanitizeDns1123(s))
    ensures IsDns(s) ==> SanitizeDns1123(s) == s
  {
    hide SlugOf, IsDnsChar;
    if s != "" {
      var front, last := s[..|s| - 1], s[|s| - 1];
      SlugIsDns(front);
      SlugOfIsDns(last);
      assert s == front + [last];
    }
  }

  /** What fits is spelled out, nothing clipped: `<base>-pvc-<name>-<tag>` for a PVC of the policy's namespace,
      `<base>-pvc-<ns>-<name>-<tag>` for another's, `-repo-<repository>` before the tag for a child of one repository,
      `<base>` alone for a policy with neither, and `<restore>-populate-<tag>` for a populate Job. */
  lemma ShortNamesAreVerbatim(base: string, policyNs: string, pvcNs: string, pvcName: string, repo: RepositoryRef)
    requires base != "" && base[0] != '-' && base[|base| - 1] != '-'
    requires IsDns(pvcNs) && IsDns(pvcName) && IsDns(repo.name) && |base| + |pvcNs| + |pvcName| + |repo.name| <= 42
    ensures var key := RepoKey(repo, policyNs);
            var pvc := if pvcNs == policyNs then pvcName else pvcNs + "-" + pvcName;
            && FanoutChildNameFor(base, policyNs, None, None) == base
            && FanoutChildName(base, policyNs, pvcNs, pvcName)
               == base + "-pvc-" + pvc + "-" + Fnv8(TagInput(base, Some((pvcNs, pvcName)), None))
            && FanoutChildNameFor(base, policyNs, None, Some(repo))
               == base + "-repo-" + repo.name + "-" + Fnv8(TagInput(base, None, Some(key)))
            && FanoutChildNameFor(base, policyNs, Some((pvcNs, pvcName)), Some(repo))
               == base + "-pvc-" + pvc + "-repo-" + repo.name + "-"
                  + Fnv8(TagInput(base, Some((pvcNs, pvcName)), Some(key)))
            && PopulateJobName(base, policyNs) == base + "-populate-" + Fnv8(policyNs)
  {
    hide SanitizeDns1123, TagInput, Fnv8, RepoKey, TrimStart, TrimEnd, IsDns;
    var pvc := if pvcNs == policyNs then pvcName else pvcNs + "-" + pvcName;
    DnsJoined(pvcNs, pvcName);
    SlugIsDns(pvc);
    SlugIsDns(repo.name);
    Untouched(base);
    NothingToTrim(base);
    var member, key := Some((pvcNs, pvcName)), RepoKey(repo, policyNs);
    var m, r, both := Fnv8(TagInput(base, member, None)), Fnv8(TagInput(base, None, Some(key))),
        Fnv8(TagInput(base, member, Some(key)));
    assert IsHex(m[7]) && IsHex(r[7]) && IsHex(both[7]) && IsHex(Fnv8(policyNs)[7]);
    Untouched(base + "-pvc-" + pvc + "-" + m);
    Untouched(base + "-repo-" + repo.name + "-" + r);
    Untouched(base + "-pvc-" + pvc + "-repo-" + repo.name + "-" + both);
    Untouched(base + "-populate-" + Fnv8(policyNs));
  }

  lemma DnsJoined(x: string, y: string)
    requires IsDns(x) && IsDns(y)
    ensures IsDns(x + "-" + y)
  {
  }

  lemma Untouched(s: string)
    requires s != "" && s[0] != '-' && s[|s| - 1] != '-'
    ensures Trim(s, {'-'}) == s
  {
    NothingToTrim(s);
  }

  /** Slugs letter by letter: one character per ASCII byte, letters in lower case, digits as they are, a dash
      otherwise. */
  lemma {:induction false} SlugLetterByLetter(s: string)
    requires forall i :: 0 <= i < |s| ==> IsAscii(s[i])
    ensures |SanitizeDns1123(s)| == |s|
    ensures forall i :: 0 <= i < |s| ==>
                          && ('A' <= s[i] <= 'Z' ==> SanitizeDns1123(s)[i] as int == s[i] as int + 32)
                          && ('a' <= s[i] <= 'z' || '0' <= s[i] <= '9' ==> SanitizeDns1123(s)[i] == s[i])
                          && (SanitizeDns1123(s)[i] == '-' || 'A' <= s[i] <= 'Z' || 'a' <= s[i] <= 'z'
                              || '0' <= s[i] <= '9')
  {
    if s != "" {
      SlugLetterByLetter(s[..|s| - 1]);
    }
  }

  /** The tag's input frames its tuple: within one naming scheme it determines base, PVC and repository. */
  lemma TagInputIsInjective(
    b1: string, m1: Option<(string, string)>, r1: Option<string>,
    b2: string, m2: Option<(string, string)>, r2: Option<string>)
    requires m1.Some? == m2.Some? && r1.Some? == r2.Some?
    requires '\n' !in b1 && '\n' !in b2
    requires m1.Some? ==> Plain(m1.value.0) && Plain(m1.value.1)
    requires m2.Some? ==> Plain(m2.value.0) && Plain(m2.value.1)
    requires r1.Some? ==> '\n' !in r1.value
    requires r2.Some? ==> '\n' !in r2.value
    requires TagInput(b1, m1, r1) == TagInput(b2, m2, r2)
    ensures b1 == b2 && m1 == m2 && r1 == r2
  {
    TagInputSplits(b1, m1, r1);
    TagInputSplits(b2, m2, r2);
    var s1, s2 := TagParts(b1, m1, r1), TagParts(b2, m2, r2);
    assert b1 == s1[0] == s2[0] == b2;
    if m1.Some? {
      assert s1[1] == s2[1];
      Framing(m1.value.0, m1.value.1, '/');
      Framing(m2.value.0, m2.value.1, '/');
    }
    if r1.Some? {
      assert s1[|s1| - 1] == s2[|s2| - 1];
    }
  }

  function GroupTagParts(namespace: string, sourceIndex: nat, repoKey: Option<string>): seq<string> {
    [namespace, Show(sourceIndex)] + (if repoKey.Some? then [repoKey.value] else [])
  }

  lemma GroupTagInputSplits(namespace: string, sourceIndex: nat, repoKey: Option<string>)
    requires '#' !in namespace && (repoKey.Some? ==> '#' !in repoKey.value)
    ensures Split(GroupTagInput(namespace, sourceIndex, repoKey), '#') == GroupTagParts(namespace, sourceIndex, repoKey)
  {
    hide Join, Split, Show;
    var n := Show(sourceIndex);
    var parts := GroupTagParts(namespace, sourceIndex, repoKey);
    if repoKey.Some? {
      JoinThree(namespace, n, repoKey.value, '#');
      assert parts == [namespace, n, repoKey.value];
      assert namespace + "#" + n + ("#" + repoKey.value) == namespace + ['#'] + n + ['#'] + repoKey.value;
    } else {
      JoinTwo(namespace, n, '#');
      assert parts == [namespace, n];
      assert namespace + "#" + n + "" == namespace + ['#'] + n;
    }
    SplitJoin(parts, '#');
  }

  /** The group's tag input determines namespace, source index and repository: two selector sources, or two
      repositories, never hash the same text. */
  lemma GroupTagInputIsInjective(ns1: string, i1: nat, k1: Option<string>, ns2: string, i2: nat, k2: Option<string>)
    requires '#' !in ns1 && '#' !in ns2
    requires (k1.Some? ==> '#' !in k1.value) && (k2.Some? ==> '#' !in k2.value)
    requires GroupTagInput(ns1, i1, k1) == GroupTagInput(ns2, i2, k2)
    ensures ns1 == ns2 && i1 == i2 && k1 == k2
  {
    hide Split, Show, GroupTagInput;
    GroupTagInputSplits(ns1, i1, k1);
    GroupTagInputSplits(ns2, i2, k2);
    var p1, p2 := GroupTagParts(ns1, i1, k1), GroupTagParts(ns2, i2, k2);
    assert p1[0] == p2[0] && p1[1] == p2[1] && |p1| == |p2|;
    DecimalShow(i1);
    DecimalShow(i2);
    assert |p1| == 3 ==> p1[2] == p2[2];
  }

  function TagParts(base: string, member: Option<(string, string)>, rkey: Option<string>): seq<string> {
    [base]
    + (if member.Some? then [member.value.0 + "/" + member.value.1] else [])
    + (if rkey.Some? then [rkey.value] else [])
  }

  lemma TagInputSplits(base: string, member: Option<(string, string)>, rkey: Option<string>)
    requires '\n' !in base
    requires member.Some? ==> Plain(member.value.0) && Plain(member.value.1)
    requires rkey.Some? ==> '\n' !in rkey.value
    ensures Split(TagInput(base, member, rkey), '\n') == TagParts(base, member, rkey)
  {
    var parts := TagParts(base, member, rkey);
    TagInputJoins(base, member, rkey);
    SplitJoin(parts, '\n');
  }

  lemma TagInputJoins(base: string, member: Option<(string, string)>, rkey: Option<string>)
    ensures Join(TagParts(base, member, rkey), '\n') == TagInput(base, member, rkey)
  {
    hide Join;
    if member.Some? {
      MemberTagJoins(base, member.value.0, member.value.1, rkey);
    } else if rkey.Some? {
      assert TagParts(base, member, rkey) == [base, rkey.value];
      JoinTwo(base, rkey.value, '\n');
      assert TagInput(base, member, rkey) == base + ['\n'] + rkey.value;
    } else {
      assert TagParts(base, member, rkey) == [base];
      JoinOne(base, '\n');
    }
  }

  lemma MemberTagJoins(base: string, ns: string, name: string, rkey: Option<string>)
    ensures Join(TagParts(base, Some((ns, name)), rkey), '\n') == TagInput(base, Some((ns, name)), rkey)
  {
    hide Join;
    var m := ns + "/" + name;
    assert "\n" + ns + "/" + name == ['\n'] + m;
    assert base + (['\n'] + m) == base + ['\n'] + m;
    if rkey.Some? {
      JoinThree(base, m, rkey.value, '\n');
      assert TagParts(base, Some((ns, name)), rkey) == [base, m, rkey.value];
      assert (base + ['\n'] + m) + ("\n" + rkey.value) == base + ['\n'] + m + ['\n'] + rkey.value;
    } else {
      JoinTwo(base, m, '\n');
      assert TagParts(base, Some((ns, name)), rkey) == [base, m];
      assert (base + ['\n'] + m) + "" == base + ['\n'] + m;
    }
  }
}
