/** Crossing expanded members with the policy's repositories into the set of `Snapshot`s to mint. */
module Mint {
  import opened Text
  import opened Refs
  import opened SourcePaths
  import opened Naming
  import opened Expand
  import opened ExpandFacts

  datatype MintCell = MintCell(name: string, source: Option<SourceRef>, repository: Option<RepositoryRef>)

  predicate IsMultiRepo(p: Policy) { p.repositories != [] }

  /** The child of member `m` in repository `r`: a group is re-derived per repository. */
  function CellFor(p: Policy, base: string, m: ExpandedMember, r: RepositoryRef): MintCell {
    var rkey := RepoKey(r, p.namespace);
    var t := m.source.target;
    var source :=
      match m.source.group
      case None => m.source
      case Some(g) =>
        var group := GroupName(base, g.namespace, m.source.sourceIndex, Some(rkey));
        m.source.(group := Some(g.(volumeGroupSnapshotName := group)));
    MintCell(FanoutChildNameFor(base, p.namespace, Some((t.namespace, t.name)), Some(r)), Some(source),
             Some(NormalizedRef(r, p.namespace)))
  }

  function BareCell(p: Policy, base: string, r: RepositoryRef): MintCell {
    MintCell(FanoutChildNameFor(base, p.namespace, None, Some(r)), None, Some(NormalizedRef(r, p.namespace)))
  }

  function Row(p: Policy, base: string, m: ExpandedMember): (cells: seq<MintCell>)
    ensures |cells| == |p.repositories|
  {
    seq(|p.repositories|, j requires 0 <= j < |p.repositories| => CellFor(p, base, m, p.repositories[j]))
  }

  /** `flat_map` over the members. */
  function Rows(p: Policy, base: string, ms: seq<ExpandedMember>): seq<MintCell> {
    if ms == [] then [] else Rows(p, base, ms[..|ms| - 1]) + Row(p, base, ms[|ms| - 1])
  }

  function MintCells(p: Policy, base: string, members: Option<seq<ExpandedMember>>): seq<MintCell> {
    match members
    case None =>
      if !IsMultiRepo(p) then [MintCell(base, None, None)]
      else seq(|p.repositories|, j requires 0 <= j < |p.repositories| => BareCell(p, base, p.repositories[j]))
    case Some(ms) =>
      if !IsMultiRepo(p) then seq(|ms|, i requires 0 <= i < |ms| => MintCell(ms[i].name, Some(ms[i].source), None))
      else Rows(p, base, ms)
  }

  lemma {:induction false} RowsAreAGrid(p: Policy, base: string, ms: seq<ExpandedMember>, i: nat, j: nat)
    requires i < |ms| && j < |p.repositories|
    ensures |Rows(p, base, ms)| == |ms| * |p.repositories|
    ensures i * |p.repositories| + j < |Rows(p, base, ms)|
    ensures Rows(p, base, ms)[i * |p.repositories| + j] == CellFor(p, base, ms[i], p.repositories[j])
    decreases |ms|
  {
    hide CellFor;
    var k := |p.repositories|;
    var front, last := ms[..|ms| - 1], ms[|ms| - 1];
    RowsLength(p, base, front);
    assert |front| * k + k == |ms| * k;
    if i < |front| {
      RowsAreAGrid(p, base, front, i, j);
    } else {
      assert i * k == |front| * k;
      assert Rows(p, base, ms)[i * k + j] == Row(p, base, last)[j];
    }
  }

  lemma {:induction false} RowsLength(p: Policy, base: string, ms: seq<ExpandedMember>)
    ensures |Rows(p, base, ms)| == |ms| * |p.repositories|
    decreases |ms|
  {
    if ms != [] {
      RowsLength(p, base, ms[..|ms| - 1]);
    }
  }

  lemma Grid(i: nat, k: nat, n: nat)
    requires n < i * k && 0 < k
    ensures n / k < i && n % k < k && n == (n / k) * k + n % k
  {
  }

  /** What a cell of member `m` in repository `r` must carry: the tag of exactly this member and repository, the same
      PVC and source, the repository in a form that resolves alike from every namespace, and a group exactly when the
      member has one, named for that repository. */
  ghost predicate Pins(p: Policy, base: string, c: MintCell, m: ExpandedMember, r: RepositoryRef) {
    && WellTagged(c.name, Fnv8(TagInput(base, Some((m.source.target.namespace, m.source.target.name)),
                                        Some(RepoKey(r, p.namespace)))))
    && c.source.Some? && c.source.value.target == m.source.target && c.source.value.sourceIndex == m.source.sourceIndex
    && c.repository == Some(NormalizedRef(r, p.namespace))
    && (forall elsewhere :: RepoKey(c.repository.value, elsewhere) == RepoKey(r, p.namespace))
    && (c.source.value.group.Some? <==> m.source.group.Some?)
    && (m.source.group.Some? ==>
          c.source.value.group.value
          == SourceGroup(m.source.group.value.namespace,
                         GroupName(base, m.source.group.value.namespace, m.source.sourceIndex,
                                   Some(RepoKey(r, p.namespace)))))
  }

  lemma ResolvesAnywhere(r: RepositoryRef, o: string)
    ensures forall elsewhere :: RepoKey(NormalizedRef(r, o), elsewhere) == RepoKey(r, o)
  {
    forall elsewhere ensures RepoKey(NormalizedRef(r, o), elsewhere) == RepoKey(r, o) {
      NormalFormIsStable(r, o, elsewhere);
    }
  }

  /** The full cross product: exactly one cell per (member, repository), member-major, with the right pins. */
  lemma MultiRepoMintsTheCrossProduct(p: Policy, base: string, ms: seq<ExpandedMember>)
    requires IsMultiRepo(p)
    ensures var cells := MintCells(p, base, Some(ms)); var k := |p.repositories|;
            && |cells| == |ms| * k
            && forall n :: 0 <= n < |cells|
                           ==> n / k < |ms| && Pins(p, base, cells[n], ms[n / k], p.repositories[n % k])
  {
    hide FanoutChildNameFor, GroupName, RepoKey, TagInput, WellTagged, Fnv8;
    var k := |p.repositories|;
    RowsLength(p, base, ms);
    forall n | 0 <= n < |ms| * k
      ensures n / k < |ms| && Pins(p, base, MintCells(p, base, Some(ms))[n], ms[n / k], p.repositories[n % k])
    {
      Grid(|ms|, k, n);
      RowsAreAGrid(p, base, ms, n / k, n % k);
      var t := ms[n / k].source.target;
      FanoutNamesAreTagged(base, p.namespace, Some((t.namespace, t.name)), Some(p.repositories[n % k]));
      ResolvesAnywhere(p.repositories[n % k], p.namespace);
    }
  }

  /** A selector-free multi-repository policy mints one tagged, source-less child per repository, in order. */
  lemma MultiRepoWithoutSelector(p: Policy, base: string)
    requires IsMultiRepo(p)
    ensures var cells := MintCells(p, base, None);
            && |cells| == |p.repositories|
            && forall j :: 0 <= j < |cells| ==>
                 && cells[j].source.None? && cells[j].repository == Some(NormalizedRef(p.repositories[j], p.namespace))
                 && WellTagged(cells[j].name, Fnv8(TagInput(base, None, Some(RepoKey(p.repositories[j], p.namespace)))))
  {
    hide FanoutChildNameFor, RepoKey, TagInput, WellTagged, Fnv8;
    forall j | 0 <= j < |p.repositories|
      ensures WellTagged(BareCell(p, base, p.repositories[j]).name,
                         Fnv8(TagInput(base, None, Some(RepoKey(p.repositories[j], p.namespace)))))
    {
      FanoutNamesAreTagged(base, p.namespace, None, Some(p.repositories[j]));
    }
  }

  /** One law for every policy and member list: a cell per (member or bare policy, repository or the only one),
      member-major; each carries exactly the pins that exist, the members' own pins untouched but for the group. The
      bare cell of an ordinary policy is alone, carries the base as its name and records the policy's own unpinned
      path. */
  lemma EveryCell(p: Policy, base: string, members: Option<seq<ExpandedMember>>)
    ensures var cells := MintCells(p, base, members); var k := Width(p);
            && |cells| == (if members.Some? then |members.value| else 1) * k
            && (forall n :: 0 <= n < |cells| ==>
                              && (members.None? ==> cells[n].source.None?)
                              && (members.Some? ==> n / k < |members.value| && KeepsPin(cells[n], members.value[n / k]))
                              && (!IsMultiRepo(p) ==> cells[n].repository.None?)
                              && (IsMultiRepo(p) ==> n % k < |p.repositories|
                                                     && cells[n].repository
                                                        == Some(NormalizedRef(p.repositories[n % k], p.namespace))))
            && (members.Some? && !IsMultiRepo(p) ==>
                  forall n :: 0 <= n < |cells|
                              ==> cells[n].name == members.value[n].name
                                  && cells[n].source == Some(members.value[n].source))
            && (members.None? && !IsMultiRepo(p) ==>
                  |cells| == 1 && cells[0].name == base
                  && IdentitySourcePathIn(p.sources, p.namespace, cells[0].source)
                     == IdentitySourcePathIn(p.sources, p.namespace, None))
  {
    hide CellFor, Rows, NormalizedRef, FanoutChildNameFor, KeepsPin;
    var cells, k := MintCells(p, base, members), Width(p);
    if members.Some? {
      CellsCount(p, base, members.value);
      forall n | 0 <= n < |cells|
        ensures n / k < |members.value| && KeepsPin(cells[n], members.value[n / k])
        ensures cells[n].repository == if IsMultiRepo(p) then Some(NormalizedRef(p.repositories[n % k], p.namespace))
                else None
      {
        CellAtPosition(p, base, members.value, n);
      }
    } else if IsMultiRepo(p) {
      forall n | 0 <= n < |cells| ensures n % k == n {
        SmallModulo(n, k);
      }
    }
  }

  lemma SmallModulo(n: nat, k: nat)
    requires n < k
    ensures n % k == n && n / k == 0
  {
  }

  /** The cell pins the member's own source and PVC, and has a group exactly when the member has one. */
  predicate KeepsPin(c: MintCell, m: ExpandedMember) {
    && c.source.Some? && c.source.value.target == m.source.target && c.source.value.sourceIndex == m.source.sourceIndex
    && (c.source.value.group.Some? <==> m.source.group.Some?)
    && (m.source.group.Some? ==> c.source.value.group.value.namespace == m.source.group.value.namespace)
  }

  lemma CellsCount(p: Policy, base: string, ms: seq<ExpandedMember>)
    ensures |MintCells(p, base, Some(ms))| == |ms| * Width(p)
  {
    hide CellFor, Rows;
    if IsMultiRepo(p) {
      RowsLength(p, base, ms);
    }
  }

  lemma CellAtPosition(p: Policy, base: string, ms: seq<ExpandedMember>, n: nat)
    requires n < |MintCells(p, base, Some(ms))|
    ensures n / Width(p) < |ms| && n % Width(p) < Width(p)
    ensures var c := MintCells(p, base, Some(ms))[n];
            && KeepsPin(c, ms[n / Width(p)])
            && c.repository == if IsMultiRepo(p) then Some(NormalizedRef(p.repositories[n % Width(p)], p.namespace))
               else None
  {
    hide Rows, NormalizedRef, FanoutChildNameFor, GroupName;
    if IsMultiRepo(p) {
      RowsLength(p, base, ms);
      Grid(|ms|, |p.repositories|, n);
      RowsAreAGrid(p, base, ms, n / |p.repositories|, n % |p.repositories|);
    }
  }

  // --- what the cells of an accepted expansion never share -------------------------------------

  /** The repositories of a policy are distinct and named by Kubernetes names. */
  ghost predicate DistinctRepositories(p: Policy) {
    && (forall i, j :: 0 <= i < j < |p.repositories|
                       ==> NormalizedRef(p.repositories[i], p.namespace)
                           != NormalizedRef(p.repositories[j], p.namespace))
    && (forall r :: r in p.repositories ==> PlainRef(r, p.namespace))
  }

  function Width(p: Policy): (k: nat)
    ensures k > 0
  {
    if IsMultiRepo(p) then |p.repositories| else 1
  }

  /** The cell of member `m` in the `j`th repository, or its only cell. */
  function CellAt(p: Policy, base: string, m: ExpandedMember, j: nat): MintCell
    requires j < Width(p)
  {
    if IsMultiRepo(p) then CellFor(p, base, m, p.repositories[j]) else MintCell(m.name, Some(m.source), None)
  }

  /** Member and repository of the `n`th cell. */
  lemma Coordinates(p: Policy, base: string, ms: seq<ExpandedMember>, n: nat) returns (i: nat, j: nat)
    requires n < |MintCells(p, base, Some(ms))|
    ensures i < |ms| && j < Width(p) && n == i * Width(p) + j
    ensures MintCells(p, base, Some(ms))[n] == CellAt(p, base, ms[i], j)
  {
    hide CellFor, Rows;
    if IsMultiRepo(p) {
      RowsLength(p, base, ms);
      i, j := Divide(|ms|, |p.repositories|, n);
      RowsAreAGrid(p, base, ms, i, j);
    } else {
      i, j := n, 0;
    }
  }

  lemma Divide(m: nat, k: nat, n: nat) returns (i: nat, j: nat)
    requires n < m * k && 0 < k
    ensures i < m && j < k && n == i * k + j
  {
    i, j := n / k, n % k;
    Grid(m, k, n);
  }

  lemma MemberMajor(i: nat, j: nat, i': nat, j': nat, k: nat)
    requires i * k + j < i' * k + j' && j < k && j' < k
    ensures i < i' || (i == i' && j < j')
  {
    var d := i' - i;
    assert i' * k - i * k == d * k;
    assert d < 0 ==> d * k <= -1 * k;
  }

  lemma CellsPosition(p: Policy, base: string, ms: seq<ExpandedMember>, i: nat)
    requires i < |ms|
    ensures i * Width(p) < |MintCells(p, base, Some(ms))|
    ensures MintCells(p, base, Some(ms))[i * Width(p)] == CellAt(p, base, ms[i], 0)
  {
    hide CellFor, Rows;
    if IsMultiRepo(p) {
      RowsAreAGrid(p, base, ms, i, 0);
    }
  }

  /** What the tag in a cell's name hashes, read off the cell's own pins from any namespace. */
  function CellTagInput(base: string, c: MintCell, elsewhere: string): string {
    TagInput(base,
             if c.source.Some? then Some((c.source.value.target.namespace, c.source.value.target.name)) else None,
             if c.repository.Some? then Some(RepoKey(c.repository.value, elsewhere)) else None)
  }

  lemma CellPins(p: Policy, base: string, m: ExpandedMember, j: nat)
    requires j < Width(p)
    ensures var c := CellAt(p, base, m, j);
            && c.source.Some? && c.source.value.target == m.source.target
               && c.source.value.sourceIndex == m.source.sourceIndex
            && c.repository == if IsMultiRepo(p) then Some(NormalizedRef(p.repositories[j], p.namespace)) else None
  {
    hide FanoutChildNameFor, GroupName, NormalizedRef;
  }

  lemma SamePinSamePath(p: Policy, a: SourceRef, b: SourceRef)
    requires a.sourceIndex == b.sourceIndex && a.target == b.target
    ensures IdentitySourcePathIn(p.sources, p.namespace, Some(a))
            == IdentitySourcePathIn(p.sources, p.namespace, Some(b))
  {
  }

  /** No two children of one slot ever record the same path of the same repository, with one repository or many. */
  lemma CellsNeverShareAPath(p: Policy, base: string, matched: Matched, a: nat, b: nat)
    requires WellFormed(p) && InRange(p, AllPairs(p, matched)) && NoCollision(p, AllPairs(p, matched))
             && DistinctRepositories(p)
    requires a < b < |MintCells(p, base, Some(AcceptedMembers(p, base, matched)))|
    ensures var cells := MintCells(p, base, Some(AcceptedMembers(p, base, matched)));
            && cells[a].source.Some? && cells[b].source.Some?
            && (cells[a].repository != cells[b].repository
                || IdentitySourcePathIn(p.sources, p.namespace, cells[a].source)
                   != IdentitySourcePathIn(p.sources, p.namespace, cells[b].source))
  {
    hide MintCells, CellAt, AcceptedMembers, NoCollision;
    var ms := AcceptedMembers(p, base, matched);
    var i, j := Coordinates(p, base, ms, a);
    var i', j' := Coordinates(p, base, ms, b);
    MemberMajor(i, j, i', j', Width(p));
    CellsDiffer(p, base, matched, i, j, i', j');
  }

  lemma CellsDiffer(p: Policy, base: string, matched: Matched, i: nat, j: nat, i': nat, j': nat)
    requires WellFormed(p) && InRange(p, AllPairs(p, matched)) && NoCollision(p, AllPairs(p, matched))
             && DistinctRepositories(p)
    requires i <= i' < |AcceptedMembers(p, base, matched)| && j < Width(p) && j' < Width(p) && (i == i' ==> j < j')
    ensures var ms := AcceptedMembers(p, base, matched);
            var c, d := CellAt(p, base, ms[i], j), CellAt(p, base, ms[i'], j');
            && c.source.Some? && d.source.Some?
            && (c.repository != d.repository
                || IdentitySourcePathIn(p.sources, p.namespace, c.source)
                   != IdentitySourcePathIn(p.sources, p.namespace, d.source))
  {
    hide IdentitySourcePathIn, CellAt, MembersFor, NoCollision, NormalizedRef;
    var ms := AcceptedMembers(p, base, matched);
    CellPins(p, base, ms[i], j);
    CellPins(p, base, ms[i'], j');
    var c, d := CellAt(p, base, ms[i], j), CellAt(p, base, ms[i'], j');
    if i < i' {
      MembersRecordApart(p, base, matched, i, i');
      SamePinSamePath(p, c.source.value, ms[i].source);
      SamePinSamePath(p, d.source.value, ms[i'].source);
    }
  }

  /** Every cell's name carries the tag of its own pins, wherever its repository pin is resolved. */
  lemma CellIsTagged(p: Policy, base: string, matched: Matched, n: nat, elsewhere: string)
    requires n < |MintCells(p, base, Some(AcceptedMembers(p, base, matched)))|
    ensures var c := MintCells(p, base, Some(AcceptedMembers(p, base, matched)))[n];
            WellTagged(c.name, Fnv8(CellTagInput(base, c, elsewhere)))
  {
    hide MintCells, FanoutChildNameFor, GroupName, RepoKey, TagInput, Fnv8, WellTagged;
    var ms := AcceptedMembers(p, base, matched);
    var i, j := Coordinates(p, base, ms, n);
    var t := ms[i].source.target;
    if IsMultiRepo(p) {
      FanoutNamesAreTagged(base, p.namespace, Some((t.namespace, t.name)), Some(p.repositories[j]));
      NormalFormIsStable(p.repositories[j], p.namespace, elsewhere);
    } else {
      FanoutNamesAreTagged(base, p.namespace, Some((t.namespace, t.name)), None);
    }
  }

  lemma SameInputSamePins(base: string, c: MintCell, d: MintCell, elsewhere: string)
    requires '\n' !in base && c.source.Some? && d.source.Some? && PlainTarget(c.source.value.target)
             && PlainTarget(d.source.value.target)
    requires c.repository.Some? == d.repository.Some? && Plain(elsewhere)
    requires c.repository.Some? ==> PlainRef(c.repository.value, elsewhere) && PlainRef(d.repository.value, elsewhere)
    ensures CellTagInput(base, c, elsewhere) == CellTagInput(base, d, elsewhere)
            ==> c.source.value.target == d.source.value.target
                && (c.repository.Some?
                    ==> NormalizedRef(c.repository.value, elsewhere) == NormalizedRef(d.repository.value, elsewhere))
  {
    hide TagInput, RepoKey, NormalizedRef;
    if CellTagInput(base, c, elsewhere) == CellTagInput(base, d, elsewhere) {
      var mc, md := c.source.value.target, d.source.value.target;
      var rc := if c.repository.Some? then Some(RepoKey(c.repository.value, elsewhere)) else None;
      var rd := if d.repository.Some? then Some(RepoKey(d.repository.value, elsewhere)) else None;
      if c.repository.Some? {
        RepoKeySplits(c.repository.value, elsewhere);
        RepoKeySplits(d.repository.value, elsewhere);
        RepoKeyIsInjective(c.repository.value, elsewhere, d.repository.value, elsewhere);
      }
      TagInputIsInjective(base, Some((mc.namespace, mc.name)), rc, base, Some((md.namespace, md.name)), rd);
    }
  }

  lemma TagInputsDiffer(
    p: Policy, base: string, ms: seq<ExpandedMember>, i: nat, j: nat, i': nat, j': nat, elsewhere: string)
    requires i < |ms| && i' < |ms| && j < Width(p) && j' < Width(p)
    requires i < i' || (i == i' && j < j' && IsMultiRepo(p))
    requires i < i' ==> ms[i].source.target != ms[i'].source.target
    requires '\n' !in base && Plain(elsewhere) && DistinctRepositories(p)
    requires PlainTarget(ms[i].source.target) && PlainTarget(ms[i'].source.target)
    ensures CellTagInput(base, CellAt(p, base, ms[i], j), elsewhere)
            != CellTagInput(base, CellAt(p, base, ms[i'], j'), elsewhere)
  {
    hide CellAt, CellTagInput, PlainTarget, Plain;
    CellPins(p, base, ms[i], j);
    CellPins(p, base, ms[i'], j');
    var c, d := CellAt(p, base, ms[i], j), CellAt(p, base, ms[i'], j');
    if IsMultiRepo(p) {
      var r, r' := p.repositories[j], p.repositories[j'];
      assert r in p.repositories && r' in p.repositories;
      NormalIsPlain(r, p.namespace, elsewhere);
      NormalIsPlain(r', p.namespace, elsewhere);
      NormalFormIsStable(r, p.namespace, elsewhere);
      NormalFormIsStable(r', p.namespace, elsewhere);
    }
    SameInputSamePins(base, c, d, elsewhere);
  }

  lemma NormalIsPlain(r: RepositoryRef, o: string, elsewhere: string)
    requires PlainRef(r, o) && Plain(elsewhere)
    ensures PlainRef(NormalizedRef(r, o), elsewhere)
  {
    hide Plain;
  }

  /** Names separate the children of a slot exactly as far as the pins they hash: when no PVC is listed by two sources
      the hashed texts are pairwise distinct across members and repositories, and otherwise two children get one
      name. */
  lemma NamesSeparateCellsIff(p: Policy, base: string, matched: Matched, elsewhere: string)
    requires '\n' !in base && Plain(elsewhere) && PlainPairs(AllPairs(p, matched)) && DistinctRepositories(p)
    ensures var cells := MintCells(p, base, Some(AcceptedMembers(p, base, matched)));
            && ((forall a, b :: 0 <= a < b < |cells|
                                ==> CellTagInput(base, cells[a], elsewhere) != CellTagInput(base, cells[b], elsewhere))
                <==> ListedOnce(AllPairs(p, matched)))
            && (ListedOnce(AllPairs(p, matched))
                || exists a, b :: 0 <= a < b < |cells| && cells[a].name == cells[b].name)
  {
    hide MintCells, CellTagInput, AllPairs, PlainTarget, CellAt, MemberFor, DistinctRepositories, Plain;
    var pairs := AllPairs(p, matched);
    var ms := AcceptedMembers(p, base, matched);
    var cells := MintCells(p, base, Some(ms));
    DistinctListsOnce(pairs);
    MembersListPairs(p, base, matched, Distinct(pairs));
    if ListedOnce(pairs) {
      forall a, b | 0 <= a < b < |cells|
        ensures CellTagInput(base, cells[a], elsewhere) != CellTagInput(base, cells[b], elsewhere)
      {
        OnceListedInputsDiffer(p, base, matched, a, b, elsewhere);
      }
    } else {
      var a, b := TwiceListedNamesCoincide(p, base, matched, elsewhere);
    }
  }

  lemma OnceListedTargets(p: Policy, base: string, matched: Matched, i: nat, j: nat)
    requires PlainPairs(AllPairs(p, matched)) && ListedOnce(AllPairs(p, matched))
    requires i <= j < |AcceptedMembers(p, base, matched)|
    ensures var ms := AcceptedMembers(p, base, matched);
            && PlainTarget(ms[i].source.target) && PlainTarget(ms[j].source.target)
            && (i < j ==> ms[i].source.target != ms[j].source.target)
  {
    hide AllPairs, AcceptedMembers, PlainTarget;
    MemberTargets(p, base, matched, i);
    MemberTargets(p, base, matched, j);
    DistinctListsOnce(AllPairs(p, matched));
  }

  lemma OnceListedInputsDiffer(p: Policy, base: string, matched: Matched, a: nat, b: nat, elsewhere: string)
    requires '\n' !in base && Plain(elsewhere) && PlainPairs(AllPairs(p, matched)) && DistinctRepositories(p)
    requires ListedOnce(AllPairs(p, matched)) && a < b < |MintCells(p, base, Some(AcceptedMembers(p, base, matched)))|
    ensures var cells := MintCells(p, base, Some(AcceptedMembers(p, base, matched)));
            CellTagInput(base, cells[a], elsewhere) != CellTagInput(base, cells[b], elsewhere)
  {
    hide MintCells, CellTagInput, AllPairs, PlainTarget, CellAt, AcceptedMembers, DistinctRepositories, Plain,
         ListedOnce, PlainPairs;
    var ms := AcceptedMembers(p, base, matched);
    var i, j := Coordinates(p, base, ms, a);
    var i', j' := Coordinates(p, base, ms, b);
    MemberMajor(i, j, i', j', Width(p));
    OnceListedTargets(p, base, matched, i, i');
    TagInputsDiffer(p, base, ms, i, j, i', j', elsewhere);
  }

  lemma TwiceListedNamesCoincide(p: Policy, base: string, matched: Matched, elsewhere: string) returns (a: nat, b: nat)
    requires !ListedOnce(AllPairs(p, matched))
    ensures var cells := MintCells(p, base, Some(AcceptedMembers(p, base, matched)));
            && a < b < |cells| && cells[a].name == cells[b].name
            && CellTagInput(base, cells[a], elsewhere) == CellTagInput(base, cells[b], elsewhere)
  {
    hide MintCells, AllPairs, CellAt, CellTagInput, MembersFor, MemberFor;
    var ms := AcceptedMembers(p, base, matched);
    var i, j := ListedTwice(AllPairs(p, matched));
    CellsPosition(p, base, ms, i);
    CellsPosition(p, base, ms, j);
    a, b := i * Width(p), j * Width(p);
    FirstCells(i, j, Width(p));
    SameVolumeSameName(p, base, matched, i, j, elsewhere);
  }

  lemma FirstCells(i: nat, j: nat, k: nat)
    requires i < j && 0 < k
    ensures i * k < j * k
  {
  }

  lemma SameVolumeSameName(p: Policy, base: string, matched: Matched, i: nat, j: nat, elsewhere: string)
    requires i < |AcceptedMembers(p, base, matched)| && j < |AcceptedMembers(p, base, matched)|
    requires Distinct(AllPairs(p, matched))[i].target == Distinct(AllPairs(p, matched))[j].target
    ensures var ms := AcceptedMembers(p, base, matched);
            var c, d := CellAt(p, base, ms[i], 0), CellAt(p, base, ms[j], 0);
            c.name == d.name && CellTagInput(base, c, elsewhere) == CellTagInput(base, d, elsewhere)
  {
    hide AllPairs, FanoutChildNameFor, GroupName, NormalizedRef, RepoKey, TagInput;
    var ms := AcceptedMembers(p, base, matched);
    CellPins(p, base, ms[i], 0);
    CellPins(p, base, ms[j], 0);
    assert ms[i].name == ms[j].name;
  }

  /** Members of one source and namespace agree on the group name within a repository, each computing it alone. */
  lemma GroupConverges(p: Policy, base: string, m1: ExpandedMember, m2: ExpandedMember, r: RepositoryRef)
    requires m1.source.group.Some? && m2.source.group.Some?
    requires m1.source.group.value.namespace == m2.source.group.value.namespace
             && m1.source.sourceIndex == m2.source.sourceIndex
    ensures CellFor(p, base, m1, r).source.value.group == CellFor(p, base, m2, r).source.value.group
  {
    hide FanoutChildNameFor, GroupName;
  }
}
