/** The population a prune looks at: which `Snapshot` rows participate, how they are bucketed per
    (source, repository), and what a run of arrivals and prunes leaves behind. */
module RetentionGroups {
  import opened Text
  import opened Refs
  import opened RetentionRule
  import opened RetentionSelect
  import opened RetentionOrder

  datatype Phase = Succeeded | Unchanged | Discovered | Pending | Running | Failed | Deleting | Unknown(raw: string)

  /** `endTime` is `status.timing.endTime` as parsed; `None` when absent or not RFC 3339. */
  datatype Status = Status(phase: Option<Phase>, snapshot: Option<string>, endTime: Option<int>)

  datatype Snapshot = Snapshot(
    name: Option<string>, namespace: Option<string>, deletionTimestamp: Option<int>, creationTimestamp: Option<int>,
    pin: bool, source: Option<PvcTarget>, repository: Option<RepositoryRef>, status: Option<Status>)

  function RetentionView(b: Snapshot): Option<View> {
    if b.status.None? || b.status.value.phase != Some(Succeeded) || b.status.value.snapshot.None? then None
    else
      match b.status.value.endTime.Or(b.creationTimestamp)
      case None => None
      case Some(t) => Some(View(b.name.GetOr(""), t, b.pin))
  }

  function SourceKey(b: Snapshot): string {
    match b.source
    case Some(t) => "pvc/" + t.namespace + "/" + t.name
    case None => ""
  }

  function RepositoryKey(b: Snapshot): string {
    match b.repository
    case Some(r) => RepoKey(r, b.namespace.GetOr(""))
    case None => ""
  }

  function GroupKey(b: Snapshot, multi: bool): string {
    if !multi then SourceKey(b) else SourceKey(b) + "\n" + RepositoryKey(b)
  }

  /** A live row with a retention view. */
  predicate Participates(b: Snapshot) {
    b.deletionTimestamp.None? && RetentionView(b).Some?
  }

  /** The views of group `k`, in row order. */
  function Bucket(rows: seq<Snapshot>, multi: bool, k: string): seq<View> {
    if rows == [] then []
    else
      Bucket(rows[..|rows| - 1], multi, k) + Contribution(rows[|rows| - 1], multi, k)
  }

  /** What one row adds to group `k`. */
  function Contribution(b: Snapshot, multi: bool, k: string): seq<View> {
    if Participates(b) && GroupKey(b, multi) == k then [RetentionView(b).value] else []
  }

  lemma BucketGrows(rows: seq<Snapshot>, b: Snapshot, multi: bool, k: string)
    ensures Bucket(rows + [b], multi, k) == Bucket(rows, multi, k) + Contribution(b, multi, k)
  {
    hide Contribution;
    assert (rows + [b])[..|rows|] == rows;
  }

  lemma NothingIsInNoBucket(multi: bool)
    ensures forall k :: Bucket([], multi, k) == []
  {
  }

  method RetentionBuckets(rows: seq<Snapshot>, multi: bool) returns (buckets: map<string, seq<View>>)
    ensures forall k :: k in buckets <==> Bucket(rows, multi, k) != []
    ensures forall k :: k in buckets ==> buckets[k] == Bucket(rows, multi, k)
  {
    hide GroupKey, RetentionView, Bucket;
    buckets := map[];
    assert rows[..0] == [];
    NothingIsInNoBucket(multi);
    assert rows[..|rows|] == rows;
    for n := 0 to |rows|
      invariant forall k :: k in buckets <==> Bucket(rows[..n], multi, k) != []
      invariant forall k :: k in buckets ==> buckets[k] == Bucket(rows[..n], multi, k)
    {
      var b := rows[n];
      assert rows[..n + 1] == rows[..n] + [b];
      forall k ensures Bucket(rows[..n + 1], multi, k) == Bucket(rows[..n], multi, k) + Contribution(b, multi, k) {
        BucketGrows(rows[..n], b, multi, k);
      }
      if b.deletionTimestamp.Some? {
        continue;
      }
      var v := RetentionView(b);
      if v.Some? {
        var k := GroupKey(b, multi);
        buckets := buckets[k := (if k in buckets then buckets[k] else []) + [v.value]];
      }
    }
  }

  /** Live, terminally successful, with provenance and a usable time. */
  predicate Eligible(b: Snapshot) {
    && b.deletionTimestamp.None? && b.status.Some? && b.status.value.phase == Some(Succeeded)
    && b.status.value.snapshot.Some? && (b.status.value.endTime.Some? || b.creationTimestamp.Some?)
  }

  /** The view carries the spec's pin and prefers the recorded end time. */
  lemma WhoParticipates(b: Snapshot)
    ensures Participates(b) <==> Eligible(b)
    ensures Eligible(b) ==>
              var time := b.status.value.endTime.Or(b.creationTimestamp).value;
              RetentionView(b) == Some(View(b.name.GetOr(""), time, b.pin))
  {
  }

  /** Adding or removing a row of another group, a terminating row or a non-participating row leaves a
      group exactly as it was, so its kept set too. */
  lemma {:induction false} OtherRowsAreIrrelevant(
    before: seq<Snapshot>, row: Snapshot, after: seq<Snapshot>, multi: bool, k: string)
    requires !Participates(row) || GroupKey(row, multi) != k
    ensures Bucket(before + [row] + after, multi, k) == Bucket(before + after, multi, k)
    decreases |after|
  {
    hide Bucket, GroupKey, RetentionView;
    if after == [] {
      assert before + [row] + after == before + [row] && before + after == before;
      BucketGrows(before, row, multi, k);
    } else {
      var front, last := after[..|after| - 1], after[|after| - 1];
      OtherRowsAreIrrelevant(before, row, front, multi, k);
      assert before + [row] + after == (before + [row] + front) + [last];
      assert before + after == (before + front) + [last];
      BucketGrows(before + [row] + front, last, multi, k);
      BucketGrows(before + front, last, multi, k);
    }
  }

  lemma {:induction false} BucketElements(rows: seq<Snapshot>, multi: bool, k: string, v: View)
    ensures v in Bucket(rows, multi, k)
            <==> exists b :: b in rows && Participates(b) && GroupKey(b, multi) == k && RetentionView(b) == Some(v)
    decreases |rows|
  {
    hide GroupKey, RetentionView;
    if rows != [] {
      var front, last := rows[..|rows| - 1], rows[|rows| - 1];
      BucketElements(front, multi, k, v);
      hide Bucket;
      assert rows == front + [last];
      BucketGrows(front, last, multi, k);
      assert forall b :: b in rows <==> b in front || b == last;
    }
  }

  /** A row no other shares its name with is in a bucket exactly when it is eligible, and then in one only, that of
      its own (source, repository), with its own time and pin. */
  lemma LandsInExactlyOneBucket(rows: seq<Snapshot>, b: Snapshot, multi: bool, k: string)
    requires b in rows && forall c :: c in rows && c.name.GetOr("") == b.name.GetOr("") ==> c == b
    ensures (exists v :: v in Bucket(rows, multi, k) && v.name == b.name.GetOr(""))
            <==> Eligible(b) && k == GroupKey(b, multi)
    ensures forall v :: v in Bucket(rows, multi, k) && v.name == b.name.GetOr("") ==>
                          && v.pinned == b.pin
                          && Some(v.endTime) == b.status.value.endTime.Or(b.creationTimestamp)
  {
    hide GroupKey, Bucket;
    WhoParticipates(b);
    forall v | v in Bucket(rows, multi, k) && v.name == b.name.GetOr("")
      ensures Eligible(b) && k == GroupKey(b, multi) && RetentionView(b) == Some(v)
    {
      BucketElements(rows, multi, k, v);
      var c :| c in rows && Participates(c) && GroupKey(c, multi) == k && RetentionView(c) == Some(v);
      WhoParticipates(c);
      assert c == b;
    }
    if Eligible(b) && k == GroupKey(b, multi) {
      BucketElements(rows, multi, k, RetentionView(b).value);
    }
  }

  // --- the group key ----------------------------------------------------------------------

  /** Kubernetes names: no slash, no newline. */
  predicate PlainRow(b: Snapshot) {
    && (b.source.Some? ==> Plain(b.source.value.namespace) && Plain(b.source.value.name))
    && (b.repository.Some? ==> PlainRef(b.repository.value, b.namespace.GetOr("")))
  }

  function RepositoryOf(b: Snapshot): Option<RepositoryRef> {
    if b.repository.None? then None else Some(NormalizedRef(b.repository.value, b.namespace.GetOr("")))
  }

  lemma SourceKeyIsInjective(b: Snapshot, c: Snapshot)
    requires PlainRow(b) && PlainRow(c)
    ensures SourceKey(b) == SourceKey(c) <==> b.source == c.source
    ensures '\n' !in SourceKey(b)
  {
    SourceKeySplits(b);
    SourceKeySplits(c);
    if b.source.Some? && c.source.Some? && SourceKey(b) == SourceKey(c) {
      var s := Split(SourceKey(b), '/');
      assert s[1] == b.source.value.namespace == c.source.value.namespace;
      assert s[2] == b.source.value.name == c.source.value.name;
    }
  }

  lemma SourceKeySplits(b: Snapshot)
    requires PlainRow(b)
    ensures b.source.Some? ==> Split(SourceKey(b), '/') == ["pvc", b.source.value.namespace, b.source.value.name]
    ensures '\n' !in SourceKey(b)
  {
    if b.source.Some? {
      var parts := ["pvc", b.source.value.namespace, b.source.value.name];
      JoinThree(parts[0], parts[1], parts[2], '/');
      assert "pvc" + ['/'] == "pvc/";
      SplitJoin(parts, '/');
      JoinAlphabet(parts, '/', '\n');
    }
  }

  lemma RepositoryKeyIsInjective(b: Snapshot, c: Snapshot)
    requires PlainRow(b) && PlainRow(c)
    ensures RepositoryKey(b) == RepositoryKey(c) <==> RepositoryOf(b) == RepositoryOf(c)
  {
    if b.repository.Some? {
      RepoKeySplits(b.repository.value, b.namespace.GetOr(""));
      if c.repository.Some? {
        RepoKeyIsInjective(b.repository.value, b.namespace.GetOr(""), c.repository.value, c.namespace.GetOr(""));
      }
    }
    if c.repository.Some? {
      RepoKeySplits(c.repository.value, c.namespace.GetOr(""));
    }
  }

  /** One bucket per distinct source, and per distinct (source, repository) under a multi-repository policy. */
  lemma GroupKeyIsInjective(b: Snapshot, c: Snapshot, multi: bool)
    requires PlainRow(b) && PlainRow(c)
    ensures GroupKey(b, multi) == GroupKey(c, multi)
            <==> b.source == c.source && (multi ==> RepositoryOf(b) == RepositoryOf(c))
  {
    SourceKeyIsInjective(b, c);
    SourceKeyIsInjective(c, b);
    RepositoryKeyIsInjective(b, c);
    if multi && GroupKey(b, multi) == GroupKey(c, multi) {
      var k := GroupKey(b, multi);
      Framing(SourceKey(b), RepositoryKey(b), '\n');
      Framing(SourceKey(c), RepositoryKey(c), '\n');
    }
  }

  // --- arrivals and prunes -------------------------------------------------------------------

  function Rows(rows: seq<Snapshot>): set<Snapshot> { set r | r in rows }

  ghost predicate DistinctRows(rows: set<Snapshot>) {
    forall b, c :: b in rows && c in rows && Participates(b) && Participates(c) && b.name.GetOr("") == c.name.GetOr("")
                   ==> b == c
  }

  ghost function Group(rows: set<Snapshot>, multi: bool, k: string): set<View> {
    set b | b in rows && Participates(b) && GroupKey(b, multi) == k :: RetentionView(b).value
  }

  /** A prune deletes a row exactly when it participates and its own group rejects it. */
  ghost predicate Survives(rows: set<Snapshot>, multi: bool, cal: Calendar, p: Policy, b: Snapshot) {
    Participates(b) ==> Kept(Group(rows, multi, GroupKey(b, multi)), cal, p, RetentionView(b).value)
  }

  ghost function Pruned(rows: set<Snapshot>, multi: bool, cal: Calendar, p: Policy): set<Snapshot> {
    set b | b in rows && Survives(rows, multi, cal, p, b)
  }

  lemma GroupIsDistinct(rows: set<Snapshot>, multi: bool, k: string)
    requires DistinctRows(rows)
    ensures DistinctNames(Group(rows, multi, k))
  {
  }

  /** The bucketing and the selection, run over the rows in any order, delete exactly the rows the prune drops. */
  lemma PruneIsTheSelection(rows: seq<Snapshot>, multi: bool, cal: Calendar, p: Policy, b: Snapshot)
    requires DistinctRows(Rows(rows)) && (forall i, j :: 0 <= i < j < |rows| ==> rows[i] != rows[j])
    requires b in rows && Participates(b)
    ensures RetentionView(b).value in Losers(Bucket(rows, multi, GroupKey(b, multi)), cal, p)
            <==> b !in Pruned(Rows(rows), multi, cal, p)
  {
    var k := GroupKey(b, multi);
    var bucket := Bucket(rows, multi, k);
    BucketIsDistinct(rows, multi, k);
    SelectionIsKeep(bucket, cal, p);
    forall v ensures v in bucket <==> v in Group(Rows(rows), multi, k) {
      BucketElements(rows, multi, k, v);
    }
    assert Population(bucket) == Group(Rows(rows), multi, k);
    BucketElements(rows, multi, k, RetentionView(b).value);
  }

  lemma {:induction false} BucketIsDistinct(rows: seq<Snapshot>, multi: bool, k: string)
    requires DistinctRows(Rows(rows)) && (forall i, j :: 0 <= i < j < |rows| ==> rows[i] != rows[j])
    ensures DistinctInput(Bucket(rows, multi, k))
    decreases |rows|
  {
    if rows != [] {
      var front, last := rows[..|rows| - 1], rows[|rows| - 1];
      assert forall r :: r in front ==> r in rows;
      BucketIsDistinct(front, multi, k);
      var vs := Bucket(front, multi, k);
      if Participates(last) && GroupKey(last, multi) == k {
        forall i | 0 <= i < |vs| ensures vs[i].name != RetentionView(last).value.name {
          BucketElements(front, multi, k, vs[i]);
          assert vs[i] in vs;
          var b :| b in front && Participates(b) && RetentionView(b) == Some(vs[i]);
          assert last in rows && b in rows;
        }
      }
    }
  }

  /** A larger population of rows never rescues a row. */
  lemma PrunedOfMore(rows: set<Snapshot>, more: set<Snapshot>, multi: bool, cal: Calendar, p: Policy, b: Snapshot)
    requires rows <= more && Survives(more, multi, cal, p, b)
    ensures Survives(rows, multi, cal, p, b)
  {
    if Participates(b) && !Survives(rows, multi, cal, p, b) {
      var k := GroupKey(b, multi);
      RejectedStaysRejected(Group(more, multi, k), Group(rows, multi, k), cal, p, RetentionView(b).value);
    }
  }

  /** Any set of rows between the survivors and the whole has the same survivors. */
  lemma PrunedBetween(whole: set<Snapshot>, rows: set<Snapshot>, multi: bool, cal: Calendar, p: Policy)
    requires DistinctRows(whole) && Pruned(whole, multi, cal, p) <= rows <= whole
    ensures Pruned(rows, multi, cal, p) == Pruned(whole, multi, cal, p)
  {
    forall b | b in rows ensures Survives(rows, multi, cal, p, b) <==> Survives(whole, multi, cal, p, b) {
      if Participates(b) {
        var k := GroupKey(b, multi);
        var a, c := Group(whole, multi, k), Group(rows, multi, k);
        GroupIsDistinct(whole, multi, k);
        forall v | v in Keep(a, cal, p) ensures v in c {
          var r :| r in whole && Participates(r) && GroupKey(r, multi) == k && RetentionView(r).value == v;
          assert r in Pruned(whole, multi, cal, p);
        }
        KeepBetween(a, c, cal, p);
        assert RetentionView(b).value in c;
        assert Kept(c, cal, p, RetentionView(b).value) <==> RetentionView(b).value in Keep(c, cal, p);
      }
    }
  }

  datatype Event = Arrive(row: Snapshot) | Prune

  /** The rows left after a run of arrivals and prunes. */
  ghost function Run(events: seq<Event>, multi: bool, cal: Calendar, p: Policy): set<Snapshot> {
    if events == [] then {}
    else
      var before := Run(events[..|events| - 1], multi, cal, p);
      match events[|events| - 1]
      case Arrive(row) => before + {row}
      case Prune => Pruned(before, multi, cal, p)
  }

  /** Every row that ever arrived. */
  ghost function History(events: seq<Event>): set<Snapshot> {
    set i | 0 <= i < |events| && events[i].Arrive? :: events[i].row
  }

  lemma HistoryStep(events: seq<Event>)
    requires events != []
    ensures History(events) == History(events[..|events| - 1])
                             + (if events[|events| - 1].Arrive? then {events[|events| - 1].row} else {})
  {
    var front, last := events[..|events| - 1], events[|events| - 1];
    forall b | b in History(events) ensures b in History(front) || (last.Arrive? && b == last.row) {
      var i :| 0 <= i < |events| && events[i].Arrive? && events[i].row == b;
      if i < |front| {
        assert front[i] == events[i];
      }
    }
    forall b | b in History(front) ensures b in History(events) {
      var i :| 0 <= i < |front| && front[i].Arrive? && front[i].row == b;
      assert events[i] == front[i];
    }
  }

  lemma DistinctPart(part: set<Snapshot>, whole: set<Snapshot>)
    requires part <= whole && DistinctRows(whole)
    ensures DistinctRows(part)
  {
  }

  lemma ArrivalKeepsBetween(
    history: set<Snapshot>, rows: set<Snapshot>, row: Snapshot, multi: bool, cal: Calendar, p: Policy)
    requires Pruned(history, multi, cal, p) <= rows <= history
    ensures Pruned(history + {row}, multi, cal, p) <= rows + {row} <= history + {row}
  {
    hide Survives;
    forall b | b in Pruned(history + {row}, multi, cal, p) && b != row ensures b in rows {
      PrunedOfMore(history, history + {row}, multi, cal, p, b);
      assert b in Pruned(history, multi, cal, p);
    }
  }

  lemma {:induction false} RunIsBetween(events: seq<Event>, multi: bool, cal: Calendar, p: Policy)
    requires DistinctRows(History(events))
    ensures Pruned(History(events), multi, cal, p) <= Run(events, multi, cal, p) <= History(events)
    decreases |events|
  {
    hide Pruned, DistinctRows;
    if events == [] {
      NothingPruned(multi, cal, p);
      assert History(events) == {};
    } else {
      hide History;
      var front, last := events[..|events| - 1], events[|events| - 1];
      HistoryStep(events);
      DistinctPart(History(front), History(events));
      RunIsBetween(front, multi, cal, p);
      if last.Arrive? {
        ArrivalKeepsBetween(History(front), Run(front, multi, cal, p), last.row, multi, cal, p);
      } else {
        assert History(events) == History(front);
        PrunedBetween(History(front), Run(front, multi, cal, p), multi, cal, p);
        PrunedIsPart(Run(front, multi, cal, p), multi, cal, p);
      }
    }
  }

  lemma NothingPruned(multi: bool, cal: Calendar, p: Policy)
    ensures Pruned({}, multi, cal, p) == {}
  {
  }

  lemma PrunedIsPart(rows: set<Snapshot>, multi: bool, cal: Calendar, p: Policy)
    ensures Pruned(rows, multi, cal, p) <= rows
  {
  }

  /** Path independence: however arrivals and prunes interleave, a run that ends in a prune leaves exactly
      the survivors of one prune over everything that ever arrived. */
  lemma PruningIsPathIndependent(events: seq<Event>, multi: bool, cal: Calendar, p: Policy)
    requires DistinctRows(History(events))
    requires events != [] && events[|events| - 1] == Prune
    ensures Run(events, multi, cal, p) == Pruned(History(events), multi, cal, p)
  {
    hide Survives, DistinctRows, History, Pruned;
    var front := events[..|events| - 1];
    HistoryStep(events);
    assert History(events) == History(front);
    RunIsBetween(front, multi, cal, p);
    PrunedBetween(History(front), Run(front, multi, cal, p), multi, cal, p);
  }
}
