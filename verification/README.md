# Decision kernels of the kopiur operator, in Dafny

The `kopiur-api` crate holds the pure code that decides what a backup operator deletes, what it restores and which
cluster may maintain a shared repository. This project models six of its files and proves what they promise over all
inputs, all listings and all interleavings.

| component | modules |
|---|---|
| GFS retention (`retention.rs`) | `RetentionRule`, `RetentionSelect`, `RetentionOrder`, `RetentionTime`, `RetentionGroups` |
| maintenance lease (`maintenance.rs`) | `LeaseOwner`, `LeaseProtocol` |
| selector fan-out, restore path, names, label selectors (`expand.rs`) | `SourcePaths`, `Expand`, `ExpandFacts`, `Restore`, `Mint`, `Naming`, `Selectors` |
| identity expressions, identity strings, hostnames (`identity.rs`) | `CelAlias`, `CelAliasFacts`, `CelScan`, `CelErrors`, `Identity` |
| security-context verdicts (`secctx_compat.rs`) | `Compat` |
| durations (`duration.rs`) | `Duration` |
| shared vocabulary | `Text`, `Utf8`, `Refs` |

Code that loops or fills collections in the source is a `method` whose `ensures` ties it to a specification function;
what the source promises is then proved about that function. `dafny verify dfyconfig.toml` checks everything.

**Main results.**

- *Retention is path independent.* However arrivals and prunes interleave, a run that ends in a prune leaves exactly the
  survivors of one prune over everything that ever arrived (`RetentionGroups.PruningIsPathIndependent`). No property of
  the calendar is needed: the period keys are arbitrary functions of time. The sort, the six bucket walks and the pin
  exemption are proved against a rule that mentions neither order nor loops, and in completion times the rule keeps the most
  recent (`RetentionTime.SelectionFavoursTheRecent`, `RetentionTime.BucketKeepsTheMostRecent`).
- *Lease safety, with exact conditions.* Reads and stamps are separate steps, of maintenance runs and of the bootstrap's
  self-heal alike. Once a cluster's owner is recorded, no other cluster ever stamps if and only if none decided on an older
  read, none forces and none recognizes that owner (`LeaseProtocol.LeaseSafety`). From any recorded owner, at most one cluster
  ever stamps, over every run, if and only if at most one would stamp what is recorded and no other overwrites that one
  (`LeaseProtocol.AtMostOneStamper`); in whole turns, a read at once followed by its stamp, the second half suffices
  (`LeaseProtocol.AtMostOneClaimer`). For operator-managed leases, with a cluster name or without, the whole-turn condition is
  exactly that no site forces and none takes another's owner for its own (`LeaseProtocol.ManagedMaintenanceIsExclusive`), and
  the condition over every run is stated the same way (`LeaseProtocol.ManagedOverEveryRun`). Cluster names that stay distinct
  under the sanitizer are enough (`LeaseProtocol.DistinctClustersAreApart`); distinct ones are not, and neither is a mixture of
  named and unnamed clusters (`LeaseProtocol.MixedRolloutBothClaim`).
- *No cross-volume restore* (`Restore.NoCrossVolumeRestore`), over an expansion that is exact (`Expand.ExpandSources`), and
  exactly which plain sources spoil it (`Restore.ReadsOtherIff`). No two children of a slot record one path of one repository
  (`Mint.CellsNeverShareAPath`).
- *The alias lexer is exactly a renaming*: byte for byte what a scan of the raw text, which knows no tokens, says of whole
  words `namespace` outside literals, comments, numbers and selectors (`CelScan.AliasIsRenaming`); it is lockstep and idempotent,
  every slice falls on a character boundary, and error text is mapped back line for line (`CelErrors.ErrorBlockIsRestored`).
- *The selector string means the client-side match* under the Kubernetes label-selector grammar, if and only if no `In` or
  `NotIn` list is empty (`Selectors.SelectorStringMeansTheMatch`).

**Where the code and its comments disagree.** The model follows the code; each case names the lemmas that show it and, where
a promise fails, the exact condition under which it holds.

- `maintenance.rs:285-288` calls the cluster-qualified owner injective for generated names. It is injective on what the cap
  leaves of the *sanitized* segments (`LeaseOwner.QualifiedOwnersInjective`). A doubled dash, legal in a Kubernetes name,
  collapses (`LeaseOwner.DoubledDashCollides`), also in a cluster name, and then two clusters both claim
  (`LeaseProtocol.DoubledDashClustersBothClaim`).
- `maintenance.rs:291-293` says the 253-byte cap cannot be reached. A 63-byte namespace with 253-byte object names reaches it
  (`LeaseOwner.LongNamesCollide`); two names share an owner exactly when what the cap has room for agrees
  (`LeaseOwner.NamesCollideIff`).
- A namespace called `clusterrepository` shares its leases with the cluster-scoped kind
  (`LeaseOwner.ClusterrepositoryNamespaceCollides`, exactly `LeaseOwner.ManagedLeaseCollisions`).
- `mover/src/workspec/mod.rs:1143-1147` calls the restamp policy of an unnamed cluster safe because only one operator ever
  bootstraps such a repository. Once one cluster is given a name and another is not, both claim, under `Never` and with nothing
  seeded (`LeaseProtocol.MixedRolloutBothClaim`, exactly `LeaseProtocol.ManagedMaintenanceIsExclusive`).
- The owner is stamped some time after it is read, so two clusters that both find the lease free can both claim
  (`LeaseProtocol.InterleavedReadsBothClaim`, exactly `LeaseProtocol.AtMostOneStamper`).
- `expand.rs:1365-1370` says two selectors matching one PVC land on one path; with different strategies they get two paths,
  are accepted, and share one child name (`ExpandFacts.TwoStrategiesOneName`, exactly `ExpandFacts.TagsSeparateMembersIff`).
- `expand.rs:1159-1160` promises one group snapshot per repository and slot. The tag of a group does not hash the base the slot
  is part of, and the base is clipped to 50 bytes, so two slots of a long-named schedule share one group
  (`Naming.TwoSlotsOneGroup`, exactly `Naming.GroupNamesCollideIff`).
- `expand.rs:1071-1073` calls the tag of a cache name its injectivity guarantee. It separates repositories, not policies, whose
  slug is clipped first: long-named policies share one cache (`Naming.LongPoliciesShareACache`, exactly
  `Naming.PoliciesShareACacheIff` and, for all names, `Naming.CacheNamesCollideIff`).
- A plain `pvc:` source can shadow a selector member and point its restore at another member's path, through an override on
  the selector (`Restore.PlainSourceShadowsMember`) or on the plain source itself (`Restore.RedirectedPlainSourceReadsSibling`);
  exactly when is `Restore.ReadsOtherIff`, and without overrides it cannot happen (`Restore.NeverAnotherVolume`). It can also
  lead away from the member's own backup (`Restore.PlainSourceLeadsAway`, exactly `Restore.ReadsOwnIff`).
- `In` with no values never matches locally and `NotIn` with none always does, yet `k in ()` reads as the set of the empty
  value (`Selectors.EmptyListsDisagree`, exactly `Selectors.ReadingsDifferIff`). Admission refuses such a list on a
  `pvcSelector` (`api/src/validate/mod.rs:55-95`), so there the two readings always agree; its comment says the API server
  would reject `k in ()`, while the label-selector grammar modelled here accepts it.
- `secctx_compat.rs:152-158` says a reported mismatch shares no UID with the writers. The code compares whole sets, so a mover
  that runs as one of two writers is reported, with its own UID in the list (`Compat.SharedUidIsStillAMismatch`, exactly
  `Compat.MismatchListsTheMoverIff`).
- `identity.rs:236-244` can be read as letting other lines stand between a header and its quoted line; the carried line number
  is consumed by the very next line, quoted or not (`CelErrors.ShowLine`).

**Modelling decisions.** Time is an integer and a calendar key any function of it. A Rust string is a sequence of its UTF-8
bytes, one `char` per byte, in `Naming`, `CelAlias`, `CelAliasFacts`, `CelScan`, `CelErrors`, `Identity` and `Utf8`, and a sequence of
Unicode characters elsewhere. A CEL expression's value is an arbitrary function of its text. RFC 3339 parsing is folded into
an optional time. A site listed in a managed lease run maintains its repository; one whose maintenance is disabled or
covered by another `Maintenance` is simply not listed. A seeded site may finish its seed in any of its self-heals, where the
source does so in one: the failing runs need only one, and the safe direction allows more. Unsigned 64-bit bounds are explicit; FNV-1a is 64-bit vector arithmetic. Error values keep their cause, not
their wording.

## Model

| member | source | states |
|---|---|---|
| RetentionRule.RejectedStaysRejected | crates/api/src/retention.rs:142-194 | a snapshot the rule rejects is never selected from any larger population |
| RetentionRule.KeepBetween | crates/api/src/retention.rs:640-648 | any population between the kept set and the whole has the same kept set; stability on its own output is one instance |
| RetentionRule.KeepOfUnion | crates/api/src/retention.rs:142-194 | pruning before more snapshots arrive does not change who survives |
| RetentionRule.BucketAdmitsNoMore | crates/api/src/retention.rs:86-109 | dropping entries a bucket rejects lets no other entry into it, for every key function |
| RetentionSelect.SortIndices | crates/api/src/retention.rs:149-155 | the indices in strict newest-first order, ties by id then position, each exactly once |
| RetentionSelect.KeepPerPeriod | crates/api/src/retention.rs:86-109 | keeps exactly the positions that open a period with fewer than `count` periods before them |
| RetentionSelect.OpensIsBucket | crates/api/src/retention.rs:86-109 | the walk's positions are exactly the newest of their period with fewer than N distinct newer periods |
| RetentionSelect.PositionIsRank | crates/api/src/retention.rs:160-164 | a position in the sorted order is the number of newer entries, so `keepLatest` keeps ranks below N |
| RetentionSelect.SelectKept | crates/api/src/retention.rs:142-194 | `keep` and `delete` are, newest first, exactly the entries the declarative rule keeps (pin, rank, or some bucket) and rejects |
| RetentionOrder.SelectionPartitions | crates/api/src/retention.rs:111-115 | every entry of every input is kept or deleted, exactly once |
| RetentionOrder.SelectionIsKeep | crates/api/src/retention.rs:142-194 | on distinct names both lists are newest first and are exactly the set rule's kept set and its complement |
| RetentionOrder.InputOrderIsIrrelevant | crates/api/src/retention.rs:111-115 | the same population in any order yields the same two lists |
| RetentionTime.LatestAreTheMostRecent | crates/api/src/retention.rs:157-164 | `keepLatest: n` keeps n entries, or all, and passes over none more recent than one it keeps |
| RetentionTime.BucketKeepsTheMostRecent | crates/api/src/retention.rs:86-109 | what a bucket keeps is the most recent of its period, it skips no more recent period, and it keeps as many periods as it may |
| RetentionTime.SelectionFavoursTheRecent | crates/api/src/retention.rs:111-115 | both lists run from the latest completion time to the earliest, equal times by name; pins survive; the latest snapshot survives any positive count; without a count only pins do |
| RetentionTime.UnsetCountsIgnoreTheirCalendar | crates/api/src/retention.rs:165-179 | each count is counted in its own calendar |
| RetentionTime.TwoOfThreeDays | crates/api/src/retention.rs:117-140 | the documented example |
| RetentionGroups.LandsInExactlyOneBucket | crates/api/src/retention.rs:236-374 | a row is in a bucket exactly when live, `Succeeded`, with provenance and a usable time, and then only in that of its own (source, repository), with the recorded end time and the spec's pin |
| RetentionGroups.RetentionBuckets | crates/api/src/retention.rs:356-374 | the map holds exactly the non-empty groups, each the views of its participating rows in row order |
| RetentionGroups.OtherRowsAreIrrelevant | crates/api/src/retention.rs:352-374 | rows of other groups, terminating rows and non-participating rows never change a group |
| RetentionGroups.GroupKeyIsInjective | crates/api/src/retention.rs:322-341 | equal keys exactly for equal source and, under a multi-repository policy, equal normalized repository |
| RetentionGroups.PruneIsTheSelection | crates/controller/src/snapshot_policy.rs:46-70 | bucketing and selecting rows in any order deletes exactly the rows the prune drops |
| RetentionGroups.PrunedBetween | crates/api/src/retention.rs:356-374 | any set of rows between a prune's survivors and the whole prunes to the same survivors, group by group |
| RetentionGroups.PruningIsPathIndependent | crates/api/src/retention.rs:640-648 | every interleaving of arrivals and prunes that ends in a prune leaves the survivors of one prune over the whole history |
| LeaseOwner.SanitizeLeaseFragment | crates/api/src/maintenance.rs:242-252 | the rewrite loop terminates and computes the maximal alphanumeric runs of the lowercased text joined by single dashes |
| LeaseOwner.SanitizedFixedPoints | crates/api/src/maintenance.rs:237-252 | no leading, trailing or doubled dash; idempotent; fixes exactly lowercase alphanumerics with single inner dashes |
| LeaseOwner.RunsAreJoinedByADash | crates/api/src/maintenance.rs:237-252 | two runs of letters and digits come out in lower case, joined by one dash whatever stood between them |
| LeaseOwner.ManagedLeaseCollisions | crates/api/src/maintenance.rs:204-221 | two repositories share a lease exactly when cluster, scope segment and name agree |
| LeaseOwner.ClusterrepositoryNamespaceCollides | crates/api/src/maintenance.rs:211-220 | a repository in a namespace called `clusterrepository` and the cluster-scoped one of its name share a lease |
| LeaseOwner.DocumentedLeases | crates/api/src/maintenance.rs:184-194 | the documented leases of a namespaced repository |
| LeaseOwner.DocumentedClusterLeases | crates/api/src/maintenance.rs:195-203 | the documented leases of a cluster-scoped repository |
| LeaseOwner.DocumentedOwner | crates/api/src/maintenance.rs:342-375 | `kopiur/east/media/nas` is owned by `kopiur@kopiur.east.media.nas` |
| LeaseOwner.QualifiedHostSplits | crates/api/src/maintenance.rs:342-353 | the cluster-qualified hostname, capped or not, still splits into what the cap leaves of the sanitized segments, trailing empties dropped; within the cap that is all of them |
| LeaseOwner.CutCommutes | crates/api/src/maintenance.rs:345-353 | cutting the joined text and trimming it is cutting segment by segment |
| LeaseOwner.QualifiedOwnersInjective | crates/api/src/maintenance.rs:272-294 | two cluster-qualified leases of any length have one owner exactly when the cap leaves the same of their sanitized segments |
| LeaseOwner.NamesCollideIff | crates/api/src/maintenance.rs:288-294 | two names in one cluster and scope get one owner exactly when what the cap has room for agrees |
| LeaseOwner.LongNamesCollide | crates/api/src/maintenance.rs:288-294 | legal names that reach the cap: two leases, one owner |
| LeaseOwner.CleanOwnersAreInjective | crates/api/src/maintenance.rs:342-375 | on sanitizer-fixed segments the owner determines the lease |
| LeaseOwner.MergedNamespacesCollide | crates/api/src/maintenance.rs:272-294 | any two namespaces the sanitizer merges get two leases and one owner |
| LeaseOwner.DoubledDashCollides | crates/api/src/maintenance.rs:281-294 | the concrete failing instance of verbatim injectivity |
| LeaseOwner.LegacyHost | crates/api/src/maintenance.rs:354-358 | a legacy hostname is the longest prefix of the sanitized lease within 63 bytes not ending in a dash, and has no dot |
| LeaseOwner.QualifiedHost | crates/api/src/maintenance.rs:345-353 | a cluster-qualified hostname is the longest prefix of the joined segments within 253 bytes ending in neither dot nor dash |
| LeaseOwner.QualifiedNeverLegacy | crates/api/src/maintenance.rs:342-360 | a cluster-qualified owner is also a legacy owner exactly when nothing after `kopiur` survives |
| LeaseProtocol.TurnOutcome | crates/api/src/maintenance.rs:157-167 | a maintenance turn ends with the cluster's own owner recorded exactly when the lease was free, recognized or forced, otherwise the foreign owner stays; a second turn changes nothing |
| LeaseProtocol.ReportTellsTheOutcome | crates/mover/src/main.rs:3147-3192 | a run reports the lease owned exactly when its turn leaves its own owner recorded; each blocked reason tells its policy and an untouched foreign owner; a takeover is exactly the replacement of an unrecognized owner |
| LeaseProtocol.LeaseSafety | crates/mover/src/main.rs:3115-3192 | once an owner is recorded no other cluster ever stamps, over all interleavings of reads and stamps of maintenance and self-heal, if and only if no stale decision, no force and no recognition remains |
| LeaseProtocol.HolderIsNeverLockedOut | crates/api/src/maintenance.rs:377-416 | after any run from where lease safety holds, the holder's owner is still recorded and its next maintenance turn claims |
| LeaseProtocol.AtMostOneClaimer | crates/api/src/maintenance.rs:406-416 | over whole turns from any recorded owner, at most one cluster ever claims if and only if every cluster that would claim it is exclusive, shared legacy alias or not |
| LeaseProtocol.AtMostOneStamper | crates/mover/src/workspec/mod.rs:1205-1230 | over every run from any recorded owner, at most one cluster ever stamps if and only if at most one would stamp what is recorded and no other overwrites it |
| LeaseProtocol.InterleavedReadsBothClaim | crates/mover/src/main.rs:3115-3192 | two reads before the first stamp let both clusters claim, whichever jobs they run |
| LeaseProtocol.RecognizesIff | crates/controller/src/io/maintenance.rs:441-462 | a managed site, named or not, recognizes another's owner exactly when both are named and keep the same segments, or the other is unnamed and both have one pre-cluster owner; never when the cluster names sanitize differently |
| LeaseProtocol.ClusterSurvives | crates/api/src/validate/identity.rs:198-243 | a valid cluster name sanitizes to something the cap never cuts, whatever the repository is called |
| LeaseProtocol.ManagedMaintenanceIsExclusive | crates/controller/src/io/maintenance.rs:360-474 | over whole turns and from every recorded owner, at most one site, named or not, ever claims a shared repository's maintenance, self-heals included, if and only if no site forces and none takes another's owner for its own |
| LeaseProtocol.DistinctClustersAreApart | crates/controller/src/io/maintenance.rs:441-474 | cluster names on every site that stay distinct under the sanitizer are enough for that |
| LeaseProtocol.ManagedOverEveryRun | crates/controller/src/io/maintenance.rs:360-387 | over every run from any recorded owner, at most one site ever stamps if and only if at most one wants what is recorded and no other forces or takes that one's owner for its own |
| LeaseProtocol.ManagedContendsIff | crates/controller/src/io/maintenance.rs:360-387 | a site's jobs stamp exactly a free lease, its own, the pre-cluster one, or any owner if it forces |
| LeaseProtocol.SelfHealAgreesIff | crates/controller/src/io/maintenance.rs:360-387 | a site's self-heal and its maintenance run leave the same owner recorded exactly unless a foreign owner meets one of them forcing and the other not |
| LeaseProtocol.MixedRolloutBothClaim | crates/controller/src/io/maintenance.rs:360-387 | a named and an unnamed cluster of one repository both claim it, whatever their policies |
| LeaseProtocol.DoubledDashClustersBothClaim | crates/api/src/validate/identity.rs:198-243 | two distinct valid cluster names whose sites both claim, even in whole turns |
| Refs.RepoKeyIsInjective | crates/api/src/common/mod.rs:331-339 | equal keys exactly for references that normalize to the same repository |
| SourcePaths.StreamPathsAreDisjoint | crates/api/src/expand.rs:107-127 | a streamed artifact never shares a default path with a volume |
| SourcePaths.FormsAreExclusive | crates/api/src/snapshot_policy.rs:531-567 | a source has exactly the shape of its one form; none is missing, and of several the first two, in order, are named |
| SourcePaths.PinNeverFallsBack | crates/api/src/expand.rs:159-239 | a pin resolves exactly when its index is in range and that source is PVC-shaped, from that source and the pinned PVC alone, read-only unless the source says otherwise; each failure has its own error |
| SourcePaths.SelectorRecordsThePlainPath | crates/api/src/expand.rs:337-345 | a selector's child with neither strategy nor override records what a plain source of that PVC records; the namespaced strategy spells out both names |
| Restore.UnpinnedRestoreIff | crates/api/src/expand.rs:314-329 | without a selector a restore reads what the unpinned backup records, exactly unless a plain source other than the first names the target with another path of its own |
| SourcePaths.PvcPathCollisions | crates/api/src/expand.rs:107-120 | derived paths coincide exactly for same-named PVCs under `PvcName` or the same PVC under `PvcNamespacedName` |
| Expand.ExpandSources | crates/api/src/expand.rs:1310-1466 | accepts exactly when no two distinct (source, PVC) pairs share a path; emits one member per distinct pair in order; a refusal names two listed pairs and why they clash |
| Expand.CountGroups | crates/api/src/expand.rs:1332-1342 | the tally of listed PVCs per (namespace, selector source) |
| ExpandFacts.GuardedPathIsRecorded | crates/api/src/expand.rs:314-329 | the path the guard checks is the path the child's pin records |
| ExpandFacts.AcceptedMembersNeverShareAPath | crates/api/src/expand.rs:1344-1465 | one member per distinct pair, every pin resolvable, recorded paths pairwise distinct |
| ExpandFacts.SuggestedStrategySeparates | crates/api/src/expand.rs:1414-1426 | the default refusal's diagnosis and remedy are right on Kubernetes names |
| ExpandFacts.TagsSeparateMembersIff | crates/api/src/expand.rs:1433 | over the members of an expansion the hashed texts are pairwise distinct exactly when no PVC is listed by two sources; otherwise two members get one name |
| ExpandFacts.LocalMemberName | crates/api/src/expand.rs:1433 | a member of the policy's namespace that fits is called `<base>-pvc-<name>-<tag>` |
| ExpandFacts.TwoStrategiesOneName | crates/api/src/expand.rs:1365-1433 | an accepted expansion whose two members share one child name |
| ExpandFacts.GroupedIffShared | crates/api/src/expand.rs:1437-1462 | a group is stamped exactly when another member of the source shares the namespace, and all of them agree on it |
| Restore.RestorePath | crates/api/src/expand.rs:571-696 | the answer follows the five-step rule: override, exact plain match, first source, agreed selectors, or a refusal |
| Restore.NoCrossVolumeRestore | crates/api/src/expand.rs:477-522 | a member no plain source names is refused or filled from exactly the path its child records, which no sibling records |
| Restore.RefusesIffAmbiguous | crates/api/src/expand.rs:653-696 | a selector policy refuses exactly when strategies disagree or an override flattens its members |
| Restore.RefusesIff | crates/api/src/expand.rs:571-696 | every refusal of every policy: never under an override or for a plainly named target, exactly when ambiguous with selectors, exactly when the first source is malformed without; no plain source answers for another namespace |
| Restore.SelectorRestoresThePlainPath | crates/api/src/expand.rs:653-696 | moving a PVC from a plain source to selectors without strategy or override keeps the path its restores read |
| Restore.ReadsOtherIff | crates/api/src/expand.rs:596-622 | a member is filled from another volume's recorded path exactly when a plain source names it and an override on either side, or a same-named PVC of another namespace, makes the two paths one |
| Restore.ReadsOwnIff | crates/api/src/expand.rs:571-696 | a member is filled from its own recorded path exactly unless refused, or, if a plain source names it, exactly when the two paths are one |
| Restore.PlainSourceLeadsAway | crates/api/src/expand.rs:596-622 | an accepted policy whose restore of a member reads a path the member never recorded |
| Restore.NeverAnotherVolume | crates/api/src/expand.rs:571-696 | without overrides and within one namespace no member is filled from another volume's path, plain sources or not |
| Restore.PlainSourceShadowsMember | crates/api/src/expand.rs:596-622 | an accepted policy whose restore of one member reads another member's path, the override on the selector |
| Restore.RedirectedPlainSourceReadsSibling | crates/api/src/expand.rs:596-622 | the same with the override on the plain source |
| Naming.ClipIsLongest | crates/api/src/expand.rs:1114-1123 | the longest prefix within budget that ends on a UTF-8 boundary |
| Naming.ClipLoop | crates/api/src/expand.rs:1114-1123 | the backing-off loop computes that prefix |
| Naming.Fnv8Loop | crates/api/src/expand.rs:903-910 | the byte loop computes FNV-1a, as eight hex digits |
| Naming.FnvTestVectors | crates/api/src/expand.rs:903-910 | the published FNV-1a vectors of the empty text and of `a`, and their eight digits |
| Naming.KeepTwo | crates/api/src/expand.rs:1016-1024 | two-segment budget: never over 63, nothing clipped that fits, no room left while the leading segment is clipped, a third and two thirds guaranteed |
| Naming.KeepThree | crates/api/src/expand.rs:1037-1046 | three-segment budget: never over 63, nothing clipped that fits, no room left while the base is clipped, a third guaranteed to each |
| Naming.FanoutNamesAreTagged | crates/api/src/expand.rs:940-1057 | at most 63 bytes, no dash at either end, the tag of the full unclipped tuple intact |
| Naming.PopulateNamesAreTagged | crates/api/src/expand.rs:749-756 | populate Jobs: at most 63 bytes, no dash at either end, the tag of the consumer's UID intact |
| Naming.GroupNamesAreTagged | crates/api/src/expand.rs:1164-1185 | group names: at most 63 bytes, no dash at either end, the tag of namespace, source and repository intact; the base is not part of it |
| Naming.GroupNamesCollideIff | crates/api/src/expand.rs:1164-1185 | two group names are equal exactly when their tags are and the bases agree in the 50 bytes kept |
| Naming.TwoSlotsOneGroup | crates/api/src/expand.rs:1159-1185 | two slots of one schedule and policy with one group name |
| Naming.GroupTagInputIsInjective | crates/api/src/expand.rs:1171-1180 | the hashed text of a group determines namespace, source index and repository |
| Naming.CacheNamesAreTagged | crates/api/src/expand.rs:1078-1111 | cache names: at most 63 bytes, no dash at either end, the six-digit tag of the repository intact; the policy is not part of it |
| Naming.SingleCacheNames | crates/api/src/expand.rs:1066-1068 | without a repository two policies share a cache exactly when they have one name, and no cap applies |
| Naming.CacheNamesCollideIff | crates/api/src/expand.rs:1078-1111 | two cache names are equal exactly when their tags are and what is kept of policy and repository, joined, agrees |
| Naming.PoliciesShareACacheIff | crates/api/src/expand.rs:1078-1111 | two policies over budget share one repository's cache exactly when what is kept of their slugs agrees |
| Naming.LongPoliciesShareACache | crates/api/src/expand.rs:1059-1077 | policies that agree on their first 42 bytes share one cache for every repository |
| Naming.EqualNamesEqualTags | crates/api/src/expand.rs:929-936 | equal child names imply equal tags, whatever was clipped |
| Naming.TagInputIsInjective | crates/api/src/expand.rs:929-939 | within one scheme the hashed text determines base, PVC and repository |
| Naming.ShortNamesAreVerbatim | crates/api/src/expand.rs:911-939 | every form of child, and a populate Job, is spelled out in full where it fits |
| Naming.SlugIsDns | crates/api/src/expand.rs:1126-1136 | slugs are DNS text and DNS text is its own slug |
| Naming.SlugLetterByLetter | crates/api/src/expand.rs:1126-1136 | letters in lower case, digits as they are, a dash for anything else |
| Mint.MultiRepoMintsTheCrossProduct | crates/api/src/expand.rs:1256-1287 | exactly one cell per (member, repository), member-major, with its own tag, pins that resolve alike from every namespace, and per-repository group |
| Mint.MultiRepoWithoutSelector | crates/api/src/expand.rs:1246-1254 | one tagged, source-less child per repository |
| Mint.EveryCell | crates/api/src/expand.rs:1220-1288 | for every policy and member list, a cell per (member or bare policy, repository or the only one) with exactly the pins that exist; the ordinary policy's one cell is named `base` and records its own unpinned path |
| Mint.CellsNeverShareAPath | crates/api/src/expand.rs:1220-1288 | no two children of one slot record the same path of the same repository, with one repository or many |
| Mint.NamesSeparateCellsIff | crates/api/src/expand.rs:1220-1288 | across members and repositories the hashed texts are pairwise distinct exactly when no PVC is listed by two sources; otherwise two children get one name |
| Mint.CellIsTagged | crates/api/src/expand.rs:1230-1287 | every member child, with one repository or many, is named with the tag of its own pins |
| Mint.GroupConverges | crates/api/src/expand.rs:1263-1272 | members of one source and namespace compute the same group name per repository |
| Selectors.LabelSelectorString | crates/api/src/expand.rs:764-793 | the string lists the selector's constraints in order, unknown operators skipped |
| Selectors.LabelsMatchSelector | crates/api/src/expand.rs:829-864 | true exactly when every constraint holds of the labels |
| Selectors.MatchMeans | crates/api/src/expand.rs:829-864 | the match in the selector's own terms: every label pair present, every requirement holding, an absent part asking nothing |
| Selectors.SelectorStringMeansTheMatch | crates/api/src/expand.rs:758-763 | parsed by the Kubernetes grammar, the string is the selector's constraints with each empty list read as the set of the empty value; so it is exactly what the match checks if and only if no list is empty |
| Selectors.SelectionsAgree | crates/api/src/expand.rs:764-864 | the listing and the local match agree on every object that does not carry the key of an empty list with the empty value |
| Selectors.ReadingsDifferIff | crates/api/src/expand.rs:781-786 | the two readings of a constraint differ exactly on labels that send the key of an empty list to the empty value |
| Selectors.EmptyListsDisagree | crates/api/src/expand.rs:781-786 | for every key, an empty `In` and an empty `NotIn` on which the two readings differ |
| CelAlias.AliasNamespaceIdent | crates/api/src/identity.rs:154-208 | the index-and-buffer loop computes the token-wise rewrite, every slice on a character boundary |
| CelAlias.TokenEndsOnBoundary | crates/api/src/identity.rs:154-233 | every token of valid UTF-8 ends on a character boundary |
| Utf8.DecodesBack | crates/api/src/identity.rs:200-206 | every character is valid text, has its own length and decodes to itself, whatever follows |
| CelAlias.StringEndLoop | crates/api/src/identity.rs:214-233 | the loop computes the end of the literal |
| CelAliasFacts.StringEndIsFirstClose | crates/api/src/identity.rs:212-233 | a literal ends after its first unescaped closing delimiter, or at the end of the text |
| CelAliasFacts.LinesStay | crates/api/src/identity.rs:141-145 | same byte length, newlines and carriage returns in place |
| CelAliasFacts.OnlyVariablesChange | crates/api/src/identity.rs:147-153 | literals, comments, numbers, selectors and other identifiers are copied; a variable becomes the alias in place |
| CelAliasFacts.VariableIffNotSelected | crates/api/src/identity.rs:154-199 | a token is rewritten exactly when it is `namespace` and its last significant predecessor is no dot |
| CelAliasFacts.AliasIsIdempotent | crates/api/src/identity.rs:154-208 | rewriting twice is rewriting once |
| CelScan.AliasIsRenaming | crates/api/src/identity.rs:154-208 | byte for byte, the rewrite is what a token-free scan of the text says |
| CelScan.LiteralsAndCommentsAreCopied | crates/api/src/identity.rs:147-153 | no byte of a literal, comment or number, nor between words, changes |
| CelScan.VariablesAreRenamed | crates/api/src/identity.rs:147-153 | every whole word `namespace` outside these, and no field selector, becomes the alias |
| CelScan.QuotedTextIsCopied | crates/api/src/identity.rs:167-171 | a quoted text without escapes is copied whole |
| CelScan.CommentIsCopied | crates/api/src/identity.rs:163-166 | a comment is copied whole |
| CelScan.BareNameIsRenamed | crates/api/src/identity.rs:190-191 | the variable alone is renamed |
| CelScan.SelectorIsCopied | crates/api/src/identity.rs:190-193 | `w.namespace` is copied |
| CelErrors.ShowLine | crates/api/src/identity.rs:251-262 | one step of the fold over message lines |
| CelErrors.RestoreSource | crates/api/src/identity.rs:245-266 | the fold restores line by line |
| CelErrors.LinesLineUp | crates/api/src/identity.rs:241-244 | source and rewrite have as many lines, equal in length |
| CelErrors.LinesOfEnded | crates/api/src/identity.rs:246-247 | splitting into lines undoes either line ending |
| CelErrors.ErrorBlockIsRestored | crates/api/src/identity.rs:235-272 | in any message, a header for line n and column c followed by the quote of that rewritten line comes back with the header unchanged and the user's own line quoted |
| CelErrors.RestoreShowsTheUsersSource | crates/api/src/identity.rs:235-272 | in any message only a line quoting the announced rewritten line changes, into the user's own line of that number and length |
| Identity.ResolvedIdentitiesParseBack | crates/api/src/identity.rs:413-487 | splitting a resolved identity's string at the first `@` and then the first `:` gives it back, and it is the one identity that follows override, expression, default (namespace, qualified by the cluster where set) |
| Identity.AcceptedBytes | crates/api/src/validate/identity.rs:130-266 | components of 1 to 253 visible bytes without blank, `@` or `:`; paths of at least one byte without control characters |
| Identity.OwnIffDefaultShape | crates/api/src/identity.rs:551-570 | own exactly when `n.cluster` for a non-empty dot-free `n` |
| Identity.ForeignIffOtherSuffix | crates/api/src/identity.rs:551-570 | foreign exactly when `n.s` for another non-empty suffix; bare otherwise, verbatim |
| Identity.DefaultHostnameIsOwn | crates/api/src/identity.rs:424-437 | a default hostname is its writer's own and foreign to every other cluster |
| Compat.MoverIdentityOf | crates/api/src/secctx_compat.rs:208-228 | effective UID, process groups and whether permission checks are bypassed |
| Compat.BypassesIff | crates/api/src/common/privileged.rs:225-240 | permission checks are bypassed exactly by `privileged: true` or one of the two capabilities, with or without `CAP_`, in any case, blanks around it |
| Compat.EverySpellingBypasses | crates/api/src/common/privileged.rs:217-240 | a capability counts with or without `CAP_`, in either case, blanks around it |
| Compat.WorkloadIdentityOf | crates/api/src/secctx_compat.rs:243-298 | the writers' UIDs, whether one is unpinned, and the candidate file groups of a pod |
| Compat.FileGroupsIff | crates/api/src/secctx_compat.rs:243-298 | a pod's file groups, field by field: its context's and each container's own |
| Compat.EffectiveUidIff | crates/api/src/secctx_compat.rs:243-298 | a container's own UID wins over the pod's; with neither the image decides |
| Compat.WorkloadIdentities | crates/api/src/secctx_compat.rs:388-394 | describes exactly the unmanaged pods mounting the claim |
| Compat.OtherPodsDoNotCount | crates/api/src/secctx_compat.rs:388-394 | the operator's own pods and pods that do not mount the claim never change a verdict |
| Compat.ExactMatchIsSound | crates/api/src/secctx_compat.rs:404-442 | given exactly when every writer of every consuming pod is pinned to the mover's UID |
| Compat.MismatchIsSound | crates/api/src/secctx_compat.rs:404-473 | given exactly when all writers are pinned, one differs, no group is shared and no `fsGroup` walk can intervene |
| Compat.AbstentionsAreTrue | crates/api/src/secctx_compat.rs:404-467 | each abstention is given exactly for its stated reason; only a permission-bypassing root is trusted unseen |
| Compat.MismatchNamesTheWriters | crates/api/src/secctx_compat.rs:468-472 | the report lists exactly the writers' UIDs, ascending |
| Compat.MismatchListsTheMoverIff | crates/api/src/secctx_compat.rs:152-158 | a reported mismatch shares no UID with the writers exactly when no writer runs as the mover |
| Compat.SharedUidIsStillAMismatch | crates/api/src/secctx_compat.rs:152-158 | a mismatch whose list contains the mover's own UID |
| Compat.VerdictIsOrderFree | crates/api/src/secctx_compat.rs:396-403 | the verdict depends on which pods there are, not on order or repetition |
| Compat.RestoreAgreesWithRead | crates/api/src/secctx_compat.rs:478-519 | an exact reader owns what it restores for every consuming pod; a restore mismatch is reported exactly when both UIDs are pinned and neither UID nor `fsGroup` is shared |
| Duration.RenderParsesBack | crates/api/src/duration.rs:11-59 | parsing a rendered duration returns it, for every 64-bit second count |
| Duration.SpelledParses | crates/api/src/duration.rs:11-33 | every text of the grammar (blanks, optional plus, digits, optional unit) parses to number times unit, and to nothing exactly when the number or the product exceeds 64 bits |
| Duration.ParsedIsSpelled | crates/api/src/duration.rs:11-33 | nothing outside that grammar parses |
| Duration.BareNumbersAreSeconds | crates/api/src/duration.rs:8-33 | a bare number counts seconds, as with `s`; rendering never pads |
| Duration.RenderPicksTheLargestUnit | crates/api/src/duration.rs:50-59 | always a unit, the largest exact one |
| Duration.TimeoutSemantics | crates/api/src/duration.rs:66-75 | only a parsed zero means no deadline; the default counts exactly when the setting is absent or unparseable, and is then the answer; a rendered duration resolves to itself |

## Left out

- CEL compilation and evaluation: a foreign library; an expression's value is an arbitrary function of its text.
- Calendar arithmetic: the hour, day, ISO week, month and year keys are arbitrary functions of time, which the results do not depend on.
- Hash quality: FNV-1a is modelled exactly, but nothing is claimed about collisions between different inputs.
- Kopia's own designated-owner check, which may still reject a stale claimer: the model stops at the stamp.
- The unconditional owner stamp of a bootstrap that creates the repository: the lease protocol starts from whatever owner creation left.
- `container_mounting_claim`, `mover_write_identity`, verdict summaries and message wording: single lookups and text.
- Wire formats, CRD schemas, admission plumbing, schedules and controllers around these kernels.
- `gates.rs`, `jitter.rs`, `seed.rs`, `invariants.rs`, `preflight.rs`: outside the six decision kernels; `seed.rs` enters only as the flag of a bootstrap that finishes a seed.
