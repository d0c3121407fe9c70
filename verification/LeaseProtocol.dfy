/** Several clusters share one repository; the recorded owner string is the only lock. Two jobs write it. A maintenance
    run reads the recorded owner and decides by its takeover policy; a bootstrap's self-heal reads it and decides by its
    restamp policy. Either then stamps its cluster's owner, some time after the read. */
module LeaseProtocol {
  import opened Text
  import opened Refs
  import opened LeaseOwner

  datatype TakeoverPolicy = Never | PromptCondition | Force

  datatype LeaseAction = Claim | Takeover | Prompt | Yield

  function ActionFor(policy: TakeoverPolicy, heldByOther: bool): LeaseAction {
    if !heldByOther then Claim
    else match policy
      case Never => Yield
      case PromptCondition => Prompt
      case Force => Takeover
  }

  predicate LeaseHeldByOther(current: string, lease: string, aliases: seq<string>) {
    if current == "" then false
    else if current == KopiaOwnerForLease(lease) then false
    else !exists alias :: alias in aliases && current == KopiaOwnerForLease(alias)
  }

  datatype RestampPolicy = AnyStale | OwnFormatsOnly

  /** `maintenance_restamp_target` on a repository this bootstrap did not create; here the aliases are owner strings,
      not leases. */
  predicate Restamps(seeded: bool, desired: string, policy: RestampPolicy, aliases: seq<string>, current: string) {
    if current == desired then false
    else seeded || policy == AnyStale || current == "" || current in aliases
  }

  datatype Job = Maintain | SelfHeal

  /** One job of one cluster. */
  datatype Actor = Actor(who: nat, job: Job)

  /** How a cluster's bootstrap heals a stale owner. */
  datatype Heal = Heal(policy: RestampPolicy, aliases: seq<string>, seeded: bool)

  /** One cluster's maintenance configuration (`Ownership`), and its self-heal unless that is suppressed. */
  datatype Cluster = Cluster(lease: string, aliases: seq<string>, policy: TakeoverPolicy, heal: Option<Heal>) {
    function Owner(): string { KopiaOwnerForLease(lease) }

    /** A job that reads `current` decides to stamp this cluster's owner. */
    predicate WouldStamp(job: Job, current: string) {
      match job
      case Maintain =>
        var a := ActionFor(policy, LeaseHeldByOther(current, lease, aliases));
        a == Claim || a == Takeover
      case SelfHeal =>
        heal.Some? && Restamps(heal.value.seeded, Owner(), heal.value.policy, heal.value.aliases, current)
    }

    predicate Contends(current: string) { WouldStamp(Maintain, current) || WouldStamp(SelfHeal, current) }

    /** `owner` reads as this cluster itself, now or before a migration. */
    predicate Recognizes(owner: string) {
      owner == Owner() || exists alias :: alias in aliases && owner == KopiaOwnerForLease(alias)
    }

    /** Some job of this cluster stamps over any owner at all. */
    predicate Forces() {
      policy == Force || (heal.Some? && (heal.value.seeded || heal.value.policy == AnyStale))
    }

    /** Some job of this cluster stamps over this owner. */
    predicate Overwrites(owner: string) {
      Recognizes(owner) || Forces() || (heal.Some? && owner in heal.value.aliases)
    }
  }

  /** A recorded owner is safe from a cluster's jobs exactly when the configuration neither forces nor recognizes it. */
  lemma ContendsIff(c: Cluster, owner: string)
    requires owner != ""
    ensures c.Contends(owner) <==> c.Overwrites(owner)
  {
  }

  /** The recorded owner, and the jobs that have decided to stamp but not stamped yet. */
  datatype State = State(recorded: string, decided: set<Actor>)

  datatype Event = Read(actor: Actor) | Stamp(actor: Actor)

  predicate Stamps(cs: seq<Cluster>, s: State, e: Event) {
    e.Stamp? && e.actor.who < |cs| && e.actor in s.decided
  }

  function Step(cs: seq<Cluster>, s: State, e: Event): State {
    if e.actor.who >= |cs| then s
    else if e.Read? then
      if cs[e.actor.who].WouldStamp(e.actor.job, s.recorded) then s.(decided := s.decided + {e.actor})
      else s.(decided := s.decided - {e.actor})
    else if Stamps(cs, s, e) then State(cs[e.actor.who].Owner(), s.decided - {e.actor})
    else s
  }

  function After(cs: seq<Cluster>, s: State, run: seq<Event>): State
    decreases |run|
  {
    if run == [] then s else After(cs, Step(cs, s, run[0]), run[1..])
  }

  /** The clusters that stamp at some point of the run. */
  function Stampers(cs: seq<Cluster>, s: State, run: seq<Event>): set<nat>
    decreases |run|
  {
    if run == [] then {}
    else (if Stamps(cs, s, run[0]) then {run[0].actor.who} else {}) + Stampers(cs, Step(cs, s, run[0]), run[1..])
  }

  /** No cluster other than `i` forces, or mistakes `i`'s owner for its own. */
  predicate Exclusive(cs: seq<Cluster>, i: nat)
    requires i < |cs|
  {
    forall j :: 0 <= j < |cs| && j != i ==> !cs[j].Overwrites(cs[i].Owner())
  }

  /** Only `i` has a decision pending. */
  predicate OnlyPending(s: State, i: nat) {
    forall d :: d in s.decided ==> d.who == i
  }

  /** Only `i` would stamp on reading `recorded`. */
  predicate OnlyContender(cs: seq<Cluster>, recorded: string, i: nat) {
    forall j :: 0 <= j < |cs| && j != i ==> !cs[j].Contends(recorded)
  }

  lemma ExclusiveHolder(cs: seq<Cluster>, i: nat)
    requires i < |cs|
    ensures cs[i].Owner() != ""
    ensures Exclusive(cs, i) <==> OnlyContender(cs, cs[i].Owner(), i)
  {
    hide Cluster.Contends, Cluster.Overwrites, KopiaOwnerForLease;
    OwnerIsHost(cs[i].lease, cs[i].lease);
    forall j | 0 <= j < |cs| ensures cs[j].Contends(cs[i].Owner()) <==> cs[j].Overwrites(cs[i].Owner()) {
      ContendsIff(cs[j], cs[i].Owner());
    }
  }

  lemma {:induction false} StepKeepsOnlyOne(cs: seq<Cluster>, s: State, i: nat, e: Event)
    requires i < |cs| && Exclusive(cs, i) && OnlyPending(s, i) && OnlyContender(cs, s.recorded, i)
    ensures OnlyPending(Step(cs, s, e), i) && OnlyContender(cs, Step(cs, s, e).recorded, i)
    ensures Stamps(cs, s, e) ==> e.actor.who == i
  {
    hide Exclusive, Cluster.WouldStamp;
    ExclusiveHolder(cs, i);
    if e.Read? && e.actor.who < |cs| && e.actor.who != i {
      assert !cs[e.actor.who].Contends(s.recorded);
      assert !cs[e.actor.who].WouldStamp(e.actor.job, s.recorded) by {
        if e.actor.job == Maintain {} else {}
      }
    }
  }

  /** What every step keeps: while only `i` would stamp what is recorded, only `i` ever stamps. */
  lemma {:induction false} OnlyOneStamps(cs: seq<Cluster>, s: State, i: nat, run: seq<Event>)
    requires i < |cs| && Exclusive(cs, i) && OnlyPending(s, i) && OnlyContender(cs, s.recorded, i)
    ensures Stampers(cs, s, run) <= {i}
    decreases |run|
  {
    hide Exclusive, OnlyPending, OnlyContender, Step, Stamps;
    if run != [] {
      StepKeepsOnlyOne(cs, s, i, run[0]);
      OnlyOneStamps(cs, Step(cs, s, run[0]), i, run[1..]);
    }
  }

  lemma {:induction false} NobodyStamps(cs: seq<Cluster>, recorded: string, run: seq<Event>)
    requires forall j :: 0 <= j < |cs| ==> !cs[j].Contends(recorded)
    ensures Stampers(cs, State(recorded, {}), run) == {}
    decreases |run|
  {
    hide Cluster.WouldStamp;
    if run != [] {
      var e := run[0];
      if e.actor.who < |cs| {
        assert !cs[e.actor.who].Contends(recorded);
        assert !cs[e.actor.who].WouldStamp(e.actor.job, recorded) by {
          if e.actor.job == Maintain {} else {}
        }
      }
      assert Step(cs, State(recorded, {}), e) == State(recorded, {});
      NobodyStamps(cs, recorded, run[1..]);
    }
  }

  /** Lease safety over every run, with its exact condition: once `i`'s owner is recorded, no other cluster ever stamps,
      whatever the interleaving of reads and stamps of both jobs, if and only if no other cluster already decided on an
      older read, none forces, and none recognizes `i`'s owner as its own. */
  lemma LeaseSafety(cs: seq<Cluster>, s: State, i: nat)
    requires i < |cs| && s.recorded == cs[i].Owner()
    requires forall d :: d in s.decided ==> d.who < |cs|
    ensures (forall run :: Stampers(cs, s, run) <= {i}) <==> OnlyPending(s, i) && Exclusive(cs, i)
  {
    hide Exclusive, Cluster.Contends;
    ExclusiveHolder(cs, i);
    if OnlyPending(s, i) && Exclusive(cs, i) {
      forall run ensures Stampers(cs, s, run) <= {i} {
        OnlyOneStamps(cs, s, i, run);
      }
    } else if !OnlyPending(s, i) {
      var d :| d in s.decided && d.who != i;
      assert d.who in Stampers(cs, s, [Stamp(d)]);
    } else {
      var j :| 0 <= j < |cs| && j != i && cs[j].Contends(s.recorded);
      var job := ContendingJob(cs[j], s.recorded);
      StampsInOneTurn(cs, s, j, job);
      assert j in Stampers(cs, s, Turns([Actor(j, job)]));
    }
  }

  function ContendingJob(c: Cluster, current: string): (job: Job)
    requires c.Contends(current)
    ensures c.WouldStamp(job, current)
  {
    if c.WouldStamp(Maintain, current) then Maintain else SelfHeal
  }

  // --- whole turns: a read immediately followed by its stamp ----------------------

  function Turns(js: seq<Actor>): seq<Event> {
    if js == [] then [] else [Read(js[0]), Stamp(js[0])] + Turns(js[1..])
  }

  function Turn(cs: seq<Cluster>, s: State, j: nat, job: Job): State {
    Step(cs, Step(cs, s, Read(Actor(j, job))), Stamp(Actor(j, job)))
  }

  lemma {:induction false} TurnStep(cs: seq<Cluster>, s: State, js: seq<Actor>)
    requires js != [] && js[0].who < |cs|
    ensures Stampers(cs, s, Turns(js))
            == (if cs[js[0].who].WouldStamp(js[0].job, s.recorded) then {js[0].who} else {})
             + Stampers(cs, Turn(cs, s, js[0].who, js[0].job), Turns(js[1..]))
    ensures After(cs, s, Turns(js)) == After(cs, Turn(cs, s, js[0].who, js[0].job), Turns(js[1..]))
  {
    var run := Turns(js);
    assert run[1..][1..] == Turns(js[1..]);
  }

  lemma {:induction false} TurnRecords(cs: seq<Cluster>, s: State, j: nat, job: Job)
    requires j < |cs|
    ensures var recorded := if cs[j].WouldStamp(job, s.recorded) then cs[j].Owner() else s.recorded;
            Turn(cs, s, j, job) == State(recorded, s.decided - {Actor(j, job)})
  {
    hide Cluster.WouldStamp;
  }

  lemma {:induction false} StampsInOneTurn(cs: seq<Cluster>, s: State, j: nat, job: Job)
    requires j < |cs|
    ensures Stampers(cs, s, Turns([Actor(j, job)])) == if cs[j].WouldStamp(job, s.recorded) then {j} else {}
  {
    hide Cluster.WouldStamp, Step;
    TurnStep(cs, s, [Actor(j, job)]);
    assert [Actor(j, job)][1..] == [] && Turns([]) == [];
    assert Stampers(cs, Turn(cs, s, j, job), []) == {};
  }

  lemma {:induction false} HolderStaysRecorded(cs: seq<Cluster>, s: State, i: nat, run: seq<Event>)
    requires i < |cs| && s.recorded == cs[i].Owner() && OnlyPending(s, i) && Exclusive(cs, i)
    ensures After(cs, s, run).recorded == cs[i].Owner()
    decreases |run|
  {
    hide Exclusive, OnlyContender, Cluster.WouldStamp;
    if run != [] {
      ExclusiveHolder(cs, i);
      StepKeepsOnlyOne(cs, s, i, run[0]);
      HolderStaysRecorded(cs, Step(cs, s, run[0]), i, run[1..]);
    }
  }

  /** The holder is never locked out: after any run from where lease safety holds, whatever the others read or decided,
      its owner is still recorded and its next maintenance turn claims. */
  lemma HolderIsNeverLockedOut(cs: seq<Cluster>, s: State, i: nat, run: seq<Event>)
    requires i < |cs| && s.recorded == cs[i].Owner() && OnlyPending(s, i) && Exclusive(cs, i)
    ensures After(cs, s, run).recorded == cs[i].Owner()
    ensures Stampers(cs, After(cs, s, run), Turns([Actor(i, Maintain)])) == {i}
  {
    HolderStaysRecorded(cs, s, i, run);
    StampsInOneTurn(cs, After(cs, s, run), i, Maintain);
  }

  lemma {:induction false} AfterOneTurn(cs: seq<Cluster>, s: State, j: nat, job: Job)
    requires j < |cs|
    ensures After(cs, s, Turns([Actor(j, job)])).recorded
            == if cs[j].WouldStamp(job, s.recorded) then cs[j].Owner() else s.recorded
  {
    hide Cluster.WouldStamp, Step;
    TurnStep(cs, s, [Actor(j, job)]);
    TurnRecords(cs, s, j, job);
    assert [Actor(j, job)][1..] == [] && Turns([]) == [];
    assert After(cs, Turn(cs, s, j, job), []) == Turn(cs, s, j, job);
  }

  /** The outcome of a maintenance turn: the lease is the cluster's own if it was free or recognized, and a foreign
      owner stays recorded unless the policy forces; maintaining again changes nothing more. */
  lemma {:induction false} TurnOutcome(cs: seq<Cluster>, s: State, j: nat)
    requires j < |cs|
    ensures var once := After(cs, s, Turns([Actor(j, Maintain)]));
            && (once.recorded == cs[j].Owner()
                <==> s.recorded == "" || cs[j].Recognizes(s.recorded) || cs[j].policy == Force)
            && (once.recorded != cs[j].Owner() ==> once.recorded == s.recorded)
            && After(cs, s, Turns([Actor(j, Maintain), Actor(j, Maintain)])) == once
  {
    var turn := Actor(j, Maintain);
    assert [turn][1..] == [] && [turn, turn][1..] == [turn];
    TurnStep(cs, s, [turn]);
    TurnStep(cs, s, [turn, turn]);
    var once := Turn(cs, s, j, Maintain);
    TurnStep(cs, once, [turn]);
    assert forall t :: After(cs, t, Turns([])) == t;
    TurnRecords(cs, s, j, Maintain);
    TurnRecords(cs, once, j, Maintain);
  }

  /** What a maintenance run reports about the lease. */
  datatype Condition = LeaseOwned | LeaseBlocked(reason: string)

  function ConditionFor(a: LeaseAction): Condition {
    match a
    case Yield => LeaseBlocked("LeaseHeldByOther")
    case Prompt => LeaseBlocked("LeaseTakeoverPrompt")
    case Claim => LeaseOwned
    case Takeover => LeaseOwned
  }

  /** What a run reports is what its turn leaves behind: owned exactly when its own owner is then recorded; otherwise
      another's is, untouched, and the reason tells the policy. A takeover is exactly a turn that replaces an owner the
      cluster does not recognize. */
  lemma {:induction false} ReportTellsTheOutcome(cs: seq<Cluster>, s: State, j: nat)
    requires j < |cs|
    ensures var c := cs[j]; var action := ActionFor(c.policy, LeaseHeldByOther(s.recorded, c.lease, c.aliases));
            var left := After(cs, s, Turns([Actor(j, Maintain)])).recorded;
            && (ConditionFor(action) == LeaseOwned <==> left == c.Owner())
            && (ConditionFor(action).LeaseBlocked? ==> left == s.recorded != "" && !c.Recognizes(left))
            && (ConditionFor(action) == LeaseBlocked("LeaseHeldByOther") <==> left != c.Owner() && c.policy == Never)
            && (ConditionFor(action) == LeaseBlocked("LeaseTakeoverPrompt")
                <==> left != c.Owner() && c.policy == PromptCondition)
            && (action == Takeover <==> left == c.Owner() && s.recorded != "" && !c.Recognizes(s.recorded))
  {
    hide After, Turns, KopiaOwnerForLease;
    AfterOneTurn(cs, s, j, Maintain);
    assert |"LeaseHeldByOther"| != |"LeaseTakeoverPrompt"|;
  }

  predicate InRange(cs: seq<Cluster>, js: seq<Actor>) { forall j :: j in js ==> j.who < |cs| }

  lemma {:induction false} FirstClaimerKeepsIt(cs: seq<Cluster>, recorded: string, js: seq<Actor>)
    requires forall i :: 0 <= i < |cs| && cs[i].Contends(recorded) ==> Exclusive(cs, i)
    requires InRange(cs, js)
    ensures |Stampers(cs, State(recorded, {}), Turns(js))| <= 1
  {
    hide Exclusive, Stampers, Turns, Cluster.WouldStamp, Step;
    if js == [] {
      NobodyStampsNothing(cs, State(recorded, {}));
    } else {
      var s := State(recorded, {});
      var Actor(j, job) := js[0];
      assert js[0] in js;
      TurnStep(cs, s, js);
      TurnRecords(cs, s, j, job);
      assert s.decided - {js[0]} == {};
      assert forall k :: k in js[1..] ==> k in js;
      if cs[j].WouldStamp(job, recorded) {
        var next := State(cs[j].Owner(), {});
        assert cs[j].Contends(recorded) by { if job == Maintain {} else {} }
        ExclusiveHolder(cs, j);
        OnlyOneStamps(cs, next, j, Turns(js[1..]));
        assert Stampers(cs, s, Turns(js)) == {j};
      } else {
        FirstClaimerKeepsIt(cs, recorded, js[1..]);
      }
    }
  }

  lemma {:induction false} NobodyStampsNothing(cs: seq<Cluster>, s: State)
    ensures Stampers(cs, s, Turns([])) == {} && Stampers(cs, s, []) == {}
  {
  }

  /** Over whole turns, from any recorded owner: at most one cluster ever claims if and only if every cluster that would
      claim it is exclusive. Several clusters sharing one legacy alias race for it once and the first one keeps it. */
  lemma {:induction false} AtMostOneClaimer(cs: seq<Cluster>, recorded: string)
    ensures (forall js | InRange(cs, js) :: |Stampers(cs, State(recorded, {}), Turns(js))| <= 1)
            <==> (forall i :: 0 <= i < |cs| && cs[i].Contends(recorded) ==> Exclusive(cs, i))
  {
    hide Exclusive, Stampers, Cluster.Contends, Turns;
    if i :| 0 <= i < |cs| && cs[i].Contends(recorded) && !Exclusive(cs, i) {
      ExclusiveHolder(cs, i);
      var j :| 0 <= j < |cs| && j != i && cs[j].Contends(cs[i].Owner());
      var a, b := ContendingJob(cs[i], recorded), ContendingJob(cs[j], cs[i].Owner());
      TwoTurnsBothClaim(cs, recorded, i, a, j, b);
      var js := [Actor(i, a), Actor(j, b)];
      assert InRange(cs, js) && |{i, j}| == 2;
      assert |Stampers(cs, State(recorded, {}), Turns(js))| > 1;
    } else {
      forall js | InRange(cs, js) ensures |Stampers(cs, State(recorded, {}), Turns(js))| <= 1 {
        FirstClaimerKeepsIt(cs, recorded, js);
      }
    }
  }

  lemma {:induction false} TwoTurnsBothClaim(cs: seq<Cluster>, recorded: string, i: nat, a: Job, j: nat, b: Job)
    requires i < |cs| && j < |cs| && i != j
    requires cs[i].WouldStamp(a, recorded) && cs[j].WouldStamp(b, cs[i].Owner())
    ensures Stampers(cs, State(recorded, {}), Turns([Actor(i, a), Actor(j, b)])) == {i, j}
  {
    hide Cluster.WouldStamp, Stampers, Turns, Cluster.Owner, Turn;
    var s := State(recorded, {});
    TurnStep(cs, s, [Actor(i, a), Actor(j, b)]);
    assert [Actor(i, a), Actor(j, b)][1..] == [Actor(j, b)];
    TurnRecords(cs, s, i, a);
    StampsInOneTurn(cs, Turn(cs, s, i, a), j, b);
  }

  /** No job stamps atomically with its read: two clusters that would both stamp what is recorded both do when their
      reads come first, even when pairwise exclusive. */
  lemma InterleavedReadsBothClaim(cs: seq<Cluster>, recorded: string, i: nat, a: Job, j: nat, b: Job)
    requires i < |cs| && j < |cs| && i != j
    requires cs[i].WouldStamp(a, recorded) && cs[j].WouldStamp(b, recorded)
    ensures Stampers(cs, State(recorded, {}),
                     [Read(Actor(i, a)), Read(Actor(j, b)), Stamp(Actor(i, a)), Stamp(Actor(j, b))]) == {i, j}
  {
    hide Step, Stamps, Stampers, Cluster.WouldStamp, Cluster.Owner;
    var s0 := State(recorded, {});
    var s1, s2 := State(recorded, {Actor(i, a)}), State(recorded, {Actor(i, a), Actor(j, b)});
    var s3 := State(cs[i].Owner(), {Actor(j, b)});
    ReadDecides(cs, s0, i, a);
    ReadDecides(cs, s1, j, b);
    StampRecords(cs, s2, i, a);
    assert s2.decided - {Actor(i, a)} == {Actor(j, b)} && {Actor(i, a)} + {Actor(j, b)} == {Actor(i, a), Actor(j, b)}
           && {} + {Actor(i, a)} == {Actor(i, a)};
    StampRecords(cs, s3, j, b);
    NobodyStampsNothing(cs, Step(cs, s3, Stamp(Actor(j, b))));
    Unfold(cs, s3, Stamp(Actor(j, b)), []);
    assert [Stamp(Actor(j, b))] + [] == [Stamp(Actor(j, b))];
    Unfold(cs, s2, Stamp(Actor(i, a)), [Stamp(Actor(j, b))]);
    Unfold(cs, s1, Read(Actor(j, b)), [Stamp(Actor(i, a)), Stamp(Actor(j, b))]);
    Unfold(cs, s0, Read(Actor(i, a)), [Read(Actor(j, b)), Stamp(Actor(i, a)), Stamp(Actor(j, b))]);
    assert [Read(Actor(i, a))] + [Read(Actor(j, b)), Stamp(Actor(i, a)), Stamp(Actor(j, b))]
           == [Read(Actor(i, a)), Read(Actor(j, b)), Stamp(Actor(i, a)), Stamp(Actor(j, b))];
    assert [Read(Actor(j, b))] + [Stamp(Actor(i, a)), Stamp(Actor(j, b))]
           == [Read(Actor(j, b)), Stamp(Actor(i, a)), Stamp(Actor(j, b))];
    assert [Stamp(Actor(i, a))] + [Stamp(Actor(j, b))] == [Stamp(Actor(i, a)), Stamp(Actor(j, b))];
  }

  lemma {:induction false} ReadDecides(cs: seq<Cluster>, s: State, i: nat, job: Job)
    requires i < |cs| && cs[i].WouldStamp(job, s.recorded)
    ensures Step(cs, s, Read(Actor(i, job))) == State(s.recorded, s.decided + {Actor(i, job)})
            && !Stamps(cs, s, Read(Actor(i, job)))
  {
  }

  lemma {:induction false} StampRecords(cs: seq<Cluster>, s: State, i: nat, job: Job)
    requires i < |cs| && Actor(i, job) in s.decided
    ensures Step(cs, s, Stamp(Actor(i, job))) == State(cs[i].Owner(), s.decided - {Actor(i, job)})
            && Stamps(cs, s, Stamp(Actor(i, job)))
  {
  }

  lemma {:induction false} Unfold(cs: seq<Cluster>, s: State, e: Event, rest: seq<Event>)
    ensures Stampers(cs, s, [e] + rest)
            == (if Stamps(cs, s, e) then {e.actor.who} else {}) + Stampers(cs, Step(cs, s, e), rest)
  {
    assert ([e] + rest)[1..] == rest;
  }

  /** Over every run, from any recorded owner: at most one cluster ever stamps if and only if at most one cluster would
      stamp what is recorded, and no other cluster overwrites that one. */
  lemma {:induction false} AtMostOneStamper(cs: seq<Cluster>, recorded: string)
    ensures (forall run :: |Stampers(cs, State(recorded, {}), run)| <= 1)
            <==> (forall i :: 0 <= i < |cs| && cs[i].Contends(recorded)
                              ==> Exclusive(cs, i) && OnlyContender(cs, recorded, i))
  {
    hide Exclusive, Stampers, Cluster.Contends;
    var s := State(recorded, {});
    if forall i :: 0 <= i < |cs| && cs[i].Contends(recorded) ==> Exclusive(cs, i) && OnlyContender(cs, recorded, i) {
      forall run ensures |Stampers(cs, s, run)| <= 1 {
        if i :| 0 <= i < |cs| && cs[i].Contends(recorded) {
          OnlyOneStamps(cs, s, i, run);
          AtMostSingleton(Stampers(cs, s, run), i);
        } else {
          NobodyStamps(cs, recorded, run);
        }
      }
    } else {
      var i :| 0 <= i < |cs| && cs[i].Contends(recorded) && !(Exclusive(cs, i) && OnlyContender(cs, recorded, i));
      var a := ContendingJob(cs[i], recorded);
      if !OnlyContender(cs, recorded, i) {
        var j :| 0 <= j < |cs| && j != i && cs[j].Contends(recorded);
        var b := ContendingJob(cs[j], recorded);
        InterleavedReadsBothClaim(cs, recorded, i, a, j, b);
        assert |{i, j}| == 2;
        assert |Stampers(cs, s, [Read(Actor(i, a)), Read(Actor(j, b)), Stamp(Actor(i, a)), Stamp(Actor(j, b))])| > 1;
      } else {
        ExclusiveHolder(cs, i);
        var j :| 0 <= j < |cs| && j != i && cs[j].Contends(cs[i].Owner());
        var b := ContendingJob(cs[j], cs[i].Owner());
        TwoTurnsBothClaim(cs, recorded, i, a, j, b);
        assert |{i, j}| == 2;
        assert |Stampers(cs, s, Turns([Actor(i, a), Actor(j, b)]))| > 1;
      }
    }
  }

  lemma AtMostSingleton(xs: set<nat>, i: nat)
    requires xs <= {i}
    ensures |xs| <= 1
  {
    assert xs == {} || xs == {i};
  }

  // --- operator-managed maintenance ------------------------------------------------

  const CLUSTER_NAME_MAX: nat := 32

  /** `validate_cluster_name`: a lowercase RFC 1123 label of at most 32 characters. */
  predicate ValidClusterName(c: string) {
    && 0 < |c| <= CLUSTER_NAME_MAX
    && (forall i :: 0 <= i < |c| ==> IsAlnum(c[i]) || c[i] == '-')
    && IsAlnum(c[0]) && IsAlnum(c[|c| - 1])
  }

  /** A repository as one cluster knows it, with that cluster's name if it has one. `suppress` collects the reasons a
      bootstrap must not stamp at all; `seeded` marks a site where some bootstrap finishes a seed. */
  datatype Site = Site(
    kind: RepositoryKind, namespace: string, name: string, cluster: Option<string>,
    policy: TakeoverPolicy, suppress: bool, seeded: bool)
  {
    function Lease(): string { ManagedLease(kind, namespace, name, cluster) }

    /** The lease without a cluster name. */
    function Legacy(): string { ManagedLease(kind, namespace, name, None) }

    /** The projected maintenance and the bootstrap's owner plan: a named cluster recognizes its pre-cluster lease and
        heals only its own formats; an unnamed one has no alias and heals any stale owner. */
    function Managed(): Cluster {
      var named := cluster.Some?;
      var heal := if named then Heal(OwnFormatsOnly, [KopiaOwnerForLease(Legacy())], seeded)
                  else Heal(AnyStale, [], seeded);
      Cluster(Lease(), if named then [Legacy()] else [], policy, if suppress then None else Some(heal))
    }

    predicate Valid() {
      SlashFree(namespace) && SlashFree(name) && (cluster.Some? ==> ValidClusterName(cluster.value))
    }

    /** Stamps over any owner: a forced takeover, or a bootstrap that finishes a seed or has no cluster name. */
    predicate Forces() { policy == Force || (!suppress && (seeded || cluster.None?)) }

    /** Takes another site's owner for its own: two named sites whose owners keep the same segments, or an unnamed site
        whose owner is also this one's pre-cluster owner. */
    predicate TakesForOwn(other: Site) {
      if other.cluster.None? then KopiaOwnerForLease(other.Legacy()) == KopiaOwnerForLease(Legacy())
      else cluster.Some? && OwnerSegments(other.Lease()) == OwnerSegments(Lease())
    }

    /** Never stamps over another site's owner. */
    predicate Respects(other: Site) { !Forces() && !TakesForOwn(other) }

    /** Stamps on reading `recorded`: a free lease, its own, its pre-cluster one, or any if it forces. */
    predicate Wants(recorded: string) {
      recorded == "" || recorded == KopiaOwnerForLease(Lease()) || recorded == KopiaOwnerForLease(Legacy()) || Forces()
    }
  }

  lemma {:induction false} JoinedWordsFit(s: string)
    ensures |Join(Words(s), '-')| <= |s|
    decreases |s|
  {
    if s != "" {
      if !IsAlnum(s[0]) {
        JoinedWordsFit(s[1..]);
      } else if |s| > 1 && IsAlnum(s[1]) {
        JoinedWordsFit(s[1..]);
        var ws := Words(s[1..]);
        assert ws == [ws[0]] + ws[1..];
        JoinExtended(s[0], ws[0], ws[1..]);
      } else if |s| > 1 {
        JoinedWordsFit(s[2..]);
        assert s[1..][1..] == s[2..];
        if Words(s[2..]) != [] {
          JoinCons([s[0]], Words(s[2..]), '-');
        }
      }
    }
  }

  lemma {:induction false} SomethingSurvives(s: string)
    requires s != "" && IsAlnum(s[0])
    ensures Join(Words(s), '-') != ""
  {
    WordsAreWords(s);
    JoinedWordsAreClean(Words(s));
  }

  /** A valid cluster name sanitizes to something, and the cap never cuts it: it is the second part of the owner's
      hostname whatever the repository is called. */
  lemma ClusterSurvives(a: Site)
    requires a.Valid() && a.cluster.Some?
    ensures ClusterQualified(a.Lease()) && OwnerSegments(a.Lease())[1] == Sanitized(a.cluster.value) != ""
  {
    hide Split, Kept, Words, ManagedLease;
    var c := a.cluster.value;
    ManagedOwnerSegments(a.kind, a.namespace, a.name, c);
    assert Lower(c) == c;
    JoinedWordsFit(c);
    SomethingSurvives(c);
    var x, y, z := "kopiur", Sanitized(c), Sanitized(Scope(a.kind, a.namespace));
    assert Cut([x, y, z], 253)[1] == y by {
      assert [x, y, z][1..] == [y, z];
    }
  }

  /** No named site's owner is any site's pre-cluster owner. */
  lemma NamedIsNeverLegacy(a: Site, b: Site)
    requires a.Valid() && b.Valid() && a.cluster.Some?
    ensures KopiaOwnerForLease(a.Lease()) != KopiaOwnerForLease(b.Legacy())
  {
    hide ManagedLease, Sanitized, KopiaOwnerForLease, OwnerSegments, Split;
    ClusterSurvives(a);
    ManagedLeaseSegments(b.kind, b.namespace, b.name, None);
    assert !ClusterQualified(b.Legacy());
    QualifiedNeverLegacy(a.Lease());
  }

  /** Whatever the repository is called in each cluster, named or not, one site recognizes another's owner, alias
      included, exactly when it takes it for its own; clusters whose names sanitize differently never do. */
  lemma RecognizesIff(a: Site, b: Site)
    requires a.Valid() && b.Valid()
    ensures b.Managed().Recognizes(a.Managed().Owner()) <==> b.TakesForOwn(a)
    ensures a.cluster.Some? && b.cluster.Some? && Sanitized(a.cluster.value) != Sanitized(b.cluster.value)
            ==> !b.Managed().Recognizes(a.Managed().Owner())
  {
    hide ManagedLease, Sanitized, KopiaOwnerForLease, OwnerSegments, ClusterQualified;
    if a.cluster.Some? {
      ClusterSurvives(a);
      NamedIsNeverLegacy(a, b);
    }
    if b.cluster.Some? {
      ClusterSurvives(b);
      NamedIsNeverLegacy(b, a);
      assert b.Managed().aliases == [b.Legacy()] && b.Managed().aliases[0] == b.Legacy();
    }
    if a.cluster.Some? && b.cluster.Some? {
      QualifiedOwnersInjective(a.Lease(), b.Lease());
    }
  }

  function ManagedClusters(sites: seq<Site>): (cs: seq<Cluster>)
    ensures |cs| == |sites|
    ensures forall i :: 0 <= i < |cs| ==> cs[i] == sites[i].Managed()
  {
    seq(|sites|, i requires 0 <= i < |sites| => sites[i].Managed())
  }

  predicate ValidSites(sites: seq<Site>) { forall i :: 0 <= i < |sites| ==> sites[i].Valid() }

  /** No site forces, and none takes another's owner for its own. */
  predicate Apart(sites: seq<Site>) {
    forall i, j :: 0 <= i < |sites| && 0 <= j < |sites| && i != j ==> sites[j].Respects(sites[i])
  }

  lemma SiteOverwritesIff(a: Site, b: Site)
    requires a.Valid() && b.Valid()
    ensures b.Managed().Overwrites(a.Managed().Owner()) <==> !b.Respects(a)
  {
    hide OwnerSegments, KopiaOwnerForLease, Cluster.Recognizes, ManagedLease, Site.TakesForOwn;
    RecognizesIff(a, b);
    if a.cluster.Some? {
      NamedIsNeverLegacy(a, b);
    } else if b.cluster.Some? {
      UnnamedIsAnAlias(a, b);
    }
  }

  lemma UnnamedIsAnAlias(a: Site, b: Site)
    requires a.cluster.None?
    ensures b.TakesForOwn(a) <==> a.Managed().Owner() == KopiaOwnerForLease(b.Legacy())
  {
    hide KopiaOwnerForLease, ManagedLease;
  }

  lemma {:induction false} ApartIffExclusive(sites: seq<Site>)
    requires ValidSites(sites)
    ensures Apart(sites) <==> (forall i :: 0 <= i < |sites| ==> Exclusive(ManagedClusters(sites), i))
  {
    hide Exclusive, Site.Respects;
    forall i | 0 <= i < |sites|
      ensures Exclusive(ManagedClusters(sites), i)
              <==> forall j :: 0 <= j < |sites| && j != i ==> sites[j].Respects(sites[i])
    {
      ExclusiveSite(sites, i);
    }
    if !Apart(sites) {
      var i, j :| 0 <= i < |sites| && 0 <= j < |sites| && i != j && !sites[j].Respects(sites[i]);
      assert !Exclusive(ManagedClusters(sites), i);
    }
  }

  lemma FreeLeaseIsContended(c: Cluster)
    ensures c.Contends("")
  {
  }

  /** Managed maintenance over whole turns, self-heals included: whatever owner is recorded at the start, at most one
      site ever claims the shared repository, if and only if no site forces and none takes another's owner for its
      own. */
  lemma ManagedMaintenanceIsExclusive(sites: seq<Site>)
    requires ValidSites(sites)
    ensures (forall recorded, js | InRange(ManagedClusters(sites), js)
                :: |Stampers(ManagedClusters(sites), State(recorded, {}), Turns(js))| <= 1)
            <==> Apart(sites)
  {
    hide Stampers, Turns, Exclusive, Cluster.Contends, InRange, Apart;
    var cs := ManagedClusters(sites);
    ApartIffExclusive(sites);
    if Apart(sites) {
      forall recorded, js | InRange(cs, js) ensures |Stampers(cs, State(recorded, {}), Turns(js))| <= 1 {
        AtMostOneClaimer(cs, recorded);
      }
    } else {
      var i :| 0 <= i < |sites| && !Exclusive(cs, i);
      FreeLeaseIsContended(cs[i]);
      AtMostOneClaimer(cs, "");
      var js :| InRange(cs, js) && |Stampers(cs, State("", {}), Turns(js))| > 1;
    }
  }

  /** Cluster names keep sites apart when every site has one and they stay distinct under the sanitizer. */
  lemma DistinctClustersAreApart(sites: seq<Site>)
    requires ValidSites(sites) && forall i :: 0 <= i < |sites| ==> !sites[i].Forces() && sites[i].cluster.Some?
    requires forall i, j :: 0 <= i < j < |sites|
                            ==> Sanitized(sites[i].cluster.value) != Sanitized(sites[j].cluster.value)
    ensures Apart(sites)
  {
    hide OwnerSegments, Sanitized, Site.Forces, ManagedLease;
    forall i, j | 0 <= i < |sites| && 0 <= j < |sites| && i != j ensures !sites[j].TakesForOwn(sites[i]) {
      ClusterSurvives(sites[i]);
      ClusterSurvives(sites[j]);
    }
  }

  /** What a site's jobs stamp, named or not, forcing or not. */
  lemma ManagedContendsIff(a: Site, recorded: string)
    ensures a.Managed().Contends(recorded) <==> a.Wants(recorded)
  {
    hide KopiaOwnerForLease, ManagedLease;
    var c := a.Managed();
    if a.cluster.Some? {
      assert c.aliases == [a.Legacy()] && c.aliases[0] == a.Legacy();
      var owners := [KopiaOwnerForLease(a.Legacy())];
      assert owners[0] == KopiaOwnerForLease(a.Legacy());
    } else {
      assert a.Lease() == a.Legacy();
    }
  }

  /** Managed maintenance over every run, reads and stamps interleaved, from any recorded owner: at most one site ever
      stamps if and only if at most one wants what is recorded, and no other forces or takes that one's owner for its
      own. */
  lemma ManagedOverEveryRun(sites: seq<Site>, recorded: string)
    requires ValidSites(sites)
    ensures (forall run :: |Stampers(ManagedClusters(sites), State(recorded, {}), run)| <= 1)
            <==> (forall i, j :: 0 <= i < |sites| && 0 <= j < |sites| && i != j && sites[i].Wants(recorded)
                                 ==> sites[j].Respects(sites[i]) && !sites[j].Wants(recorded))
  {
    hide Stampers, Cluster.Contends, Cluster.Overwrites, Site.Respects, Site.Wants, KopiaOwnerForLease;
    var cs := ManagedClusters(sites);
    AtMostOneStamper(cs, recorded);
    forall i | 0 <= i < |sites| ensures cs[i].Contends(recorded) <==> sites[i].Wants(recorded) {
      ManagedContendsIff(sites[i], recorded);
    }
    forall i | 0 <= i < |sites|
      ensures Exclusive(cs, i) <==> forall j :: 0 <= j < |sites| && j != i ==> sites[j].Respects(sites[i])
    {
      ExclusiveSite(sites, i);
    }
    if !forall i :: 0 <= i < |cs| && cs[i].Contends(recorded) ==> Exclusive(cs, i) && OnlyContender(cs, recorded, i) {
      var i :| 0 <= i < |cs| && cs[i].Contends(recorded) && !(Exclusive(cs, i) && OnlyContender(cs, recorded, i));
      assert sites[i].Wants(recorded);
    }
  }

  lemma ExclusiveSite(sites: seq<Site>, i: nat)
    requires ValidSites(sites) && i < |sites|
    ensures Exclusive(ManagedClusters(sites), i)
            <==> forall j :: 0 <= j < |sites| && j != i ==> sites[j].Respects(sites[i])
  {
    hide KopiaOwnerForLease, Cluster.Overwrites, Site.Respects;
    var cs := ManagedClusters(sites);
    forall j | 0 <= j < |sites|
      ensures cs[j].Overwrites(cs[i].Owner()) <==> !sites[j].Respects(sites[i])
    {
      SiteOverwritesIff(sites[i], sites[j]);
    }
  }

  /** The bootstrap's self-heal and the maintenance run of one site leave the same owner behind, from whatever is
      recorded, exactly unless a foreign owner meets one of them forcing and the other not; and a self-heal never
      restamps its own. */
  lemma SelfHealAgreesIff(sites: seq<Site>, s: State, i: nat)
    requires i < |sites| && !sites[i].suppress
    ensures var cs := ManagedClusters(sites); var a := sites[i];
            var foreign := s.recorded !in {"", KopiaOwnerForLease(a.Lease()), KopiaOwnerForLease(a.Legacy())};
            After(cs, s, Turns([Actor(i, SelfHeal)])).recorded == After(cs, s, Turns([Actor(i, Maintain)])).recorded
            <==> !foreign || (a.policy == Force <==> a.seeded || a.cluster.None?)
    ensures var cs := ManagedClusters(sites);
            i in Stampers(cs, s, Turns([Actor(i, SelfHeal)])) ==> s.recorded != cs[i].Owner()
  {
    hide KopiaOwnerForLease, ManagedLease, Turns, After;
    var cs := ManagedClusters(sites);
    AfterOneTurn(cs, s, i, SelfHeal);
    AfterOneTurn(cs, s, i, Maintain);
    StampsInOneTurn(cs, s, i, SelfHeal);
    var a := sites[i];
    var c := a.Managed();
    if a.cluster.Some? {
      assert c.aliases == [a.Legacy()] && c.aliases[0] == a.Legacy();
      assert c.heal.value.aliases[0] == KopiaOwnerForLease(a.Legacy());
    } else {
      assert a.Lease() == a.Legacy();
    }
  }

  /** A mixed rollout is never apart: once one cluster of a repository has a name and another none, both claim it,
      whatever their policies. The named one recognizes the other's owner as its own past, and the unnamed one's
      self-heal stamps over any owner. */
  lemma MixedRolloutBothClaim(named: Site, unnamed: Site)
    requires named.Valid() && unnamed.Valid() && named.cluster.Some? && unnamed.cluster.None?
    requires named.kind == unnamed.kind && named.namespace == unnamed.namespace && named.name == unnamed.name
    ensures var cs := [named.Managed(), unnamed.Managed()];
            && Stampers(cs, State("", {}), Turns([Actor(1, Maintain), Actor(0, Maintain)])) == {0, 1}
            && (!unnamed.suppress
                ==> Stampers(cs, State("", {}), Turns([Actor(0, Maintain), Actor(1, SelfHeal)])) == {0, 1})
  {
    hide Stampers, Turns, KopiaOwnerForLease, ManagedLease;
    var a, b := named.Managed(), unnamed.Managed();
    var cs := [a, b];
    assert a.aliases == [named.Legacy()] && a.aliases[0] == unnamed.Lease();
    TwoTurnsBothClaim(cs, "", 1, Maintain, 0, Maintain);
    assert {1, 0} == {0, 1};
    if !unnamed.suppress {
      NamedIsNeverLegacy(named, unnamed);
      TwoTurnsBothClaim(cs, "", 0, Maintain, 1, SelfHeal);
    }
  }

  /** Distinct valid cluster names are not enough: `a--b` and `a-b` get one owner for the same repository, so both claim
      a free lease, even in whole turns and under `Never`. */
  lemma DoubledDashClustersBothClaim(namespace: string, name: string)
    requires SlashFree(namespace) && SlashFree(name)
    ensures var a := Site(Repository, namespace, name, Some("a--b"), Never, false, false);
            var b := Site(Repository, namespace, name, Some("a-b"), Never, false, false);
            && a.Valid() && b.Valid() && a.cluster != b.cluster && a.TakesForOwn(b) && b.TakesForOwn(a)
            && Stampers([a.Managed(), b.Managed()], State("", {}), Turns([Actor(0, Maintain), Actor(1, Maintain)]))
               == {0, 1}
  {
    hide OwnerSegments, Stampers, Turns, ManagedLease, Sanitized, Split, KopiaOwnerForLease;
    var a := Site(Repository, namespace, name, Some("a--b"), Never, false, false);
    var b := Site(Repository, namespace, name, Some("a-b"), Never, false, false);
    assert a.Valid() && b.Valid();
    DoubledDashSanitizes();
    ManagedLeaseSegments(Repository, namespace, name, Some("a--b"));
    ManagedLeaseSegments(Repository, namespace, name, Some("a-b"));
    SameSegmentsSameOwner(a.Lease(), b.Lease());
    RecognizesIff(a, b);
    RecognizesIff(b, a);
    TwoTurnsBothClaim([a.Managed(), b.Managed()], "", 0, Maintain, 1, Maintain);
  }
}
