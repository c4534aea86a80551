/** Networks that meet the assumptions of the end-to-end results, so that none of these speaks about nothing. */
module MetAssumptions {
  import opened Types
  import opened VoteFold
  import opened MessageLayout
  import opened OrderStatistics
  import opened ReadBounds
  import opened ClientView
  import opened ViewProperties
  import opened ClientApi
  import opened SmallRuns
  import opened CrossClient
  import opened PlayedRuns
  import opened EndToEnd
  import opened Realization
  import Buffer = ReorderBuffer
  import Replicas = ReplicaRun

  function IdsBelow(n: nat): (ids: set<ReplicaId>)
    requires n <= TWO_64
    ensures |ids| == n && forall r: ReplicaId :: r in ids <==> r < n
  {
    if n == 0 then {} else IdsBelow(n - 1) + {n - 1}
  }

  /** A heartbeat in round 3, then a vote for `TX` in round 9. */
  const PLAN: Stream := (n: nat) => if n == 0 then Content(Replicas.HEARTBEAT_TX, 3) else Content(TX, 9)

  function PlannedMessage(i: SequenceNumber): Bytes {
    MessageToSign(PLAN(i).tx.data, PLAN(i).ts, i)
  }

  /** `n` replicas, under whose keys only the two planned messages verify. */
  function PlannedEnv(n: nat): Env
    requires n <= TWO_64
  {
    Env(map r: ReplicaId | r in IdsBelow(n) :: [], (key, message, signature) => message == PlannedMessage(0) || message == PlannedMessage(1))
  }

  lemma PlanIsUnforgeable(env: Env, n: nat, r: ReplicaId)
    requires n <= TWO_64 && env == PlannedEnv(n)
    ensures Unforgeable(env, r, RunAlong(env, r, PLAN, 2))
  {
    var run := RunAlong(env, r, PLAN, 2);
    var sent := Replicas.Execute(run.replica, run.actions).sent;
    ExecuteServes(run.replica, PLAN, 2);
    forall i: nat | i < 2 ensures sent[i].vote in SignedBy(run) && IsMessageOf(sent[i].vote, PlannedMessage(i)) {
      Replicas.SentVotesAreSigned(run.replica, run.actions, i);
    }
  }

  lemma PlanCanBePlayed(env: Env, n: nat, r: ReplicaId, count: nat)
    requires n <= TWO_64 && env == PlannedEnv(n) && r < n && count <= 2
    ensures CanPlay(env, r, PLAN, count)
  {
    forall i: nat | i < count ensures CanSign(env, r, MessageToSign(PLAN(i).tx.data, PLAN(i).ts, i)) {
      PlannedIsSigned(env, n, r, i);
    }
  }

  lemma PlannedIsSigned(env: Env, n: nat, r: ReplicaId, i: SequenceNumber)
    requires n <= TWO_64 && env == PlannedEnv(n) && r < n && i < 2
    ensures CanSign(env, r, PlannedMessage(i))
  {
    assert ValidSignature(env, r, PlannedMessage(i), ZeroBytes(SIGNATURE_SIZE));
  }

  lemma PlannedColumns()
    ensures Fold(PLAN, 0) == EMPTY_COLUMN && Fold(PLAN, 1) == Column(3, map[]) && Fold(PLAN, 2) == Column(9, map[TX := 9])
  {
    assert Fold(PLAN, 1) == Apply(Fold(PLAN, 0), PLAN(0));
    assert Fold(PLAN, 2) == Apply(Fold(PLAN, 1), PLAN(1));
  }

  /** What a client sees that has received the first `count` planned votes of each replica in `senders`. */
  ghost predicate SeesPlan(view: View, replicas: set<ReplicaId>, senders: set<ReplicaId>, count: nat) {
    view.mrt.Keys == replicas
    && forall r: ReplicaId :: r in replicas ==> ColumnOf(view, r) == Fold(PLAN, if r in senders then count else 0)
  }

  lemma PlayPlan(env: Env, n: nat, senders: set<ReplicaId>, count: nat) returns (arrivals: seq<Vote>)
    requires n <= TWO_64 && env == PlannedEnv(n) && senders <= IdsBelow(n) && (count == 1 || count == 2)
    ensures SeesPlan(Run(env, arrivals).view, IdsBelow(n), senders, count)
  {
    var order := SomeOrder(senders);
    var counts := map r: ReplicaId | r in senders :: count;
    var streams: Streams := r => PLAN;
    forall r <- order ensures r in counts && CanPlay(env, r, streams(r), counts[r]) {
      PlanCanBePlayed(env, n, r, count);
    }
    arrivals := PlayAll(env, order, streams, counts);
    assert env.replicas.Keys == IdsBelow(n);
    forall r: ReplicaId | r in IdsBelow(n) ensures ColumnOf(Run(env, arrivals).view, r) == Fold(PLAN, if r in senders then count else 0) {
      PlayedColumns(env, order, streams, counts, r);
    }
  }

  /** After the heartbeats nobody has voted for `TX`, and at most the silent replicas lag behind round 3. */
  lemma AfterHeartbeats(env: Env, view: View, replicas: set<ReplicaId>, senders: set<ReplicaId>)
    requires ViewInv(env, view) && env.replicas.Keys == replicas && SeesPlan(view, replicas, senders, 1)
    ensures TX !in view.tsps && Below(view.mrt, 3) <= replicas - senders
  {
    PlannedColumns();
    forall r: ReplicaId | r in replicas ensures r !in RowOf(view, TX) {
      HeldIffInRow(view, r, TX);
    }
    assert RowOf(view, TX).Keys == {};
    forall r | r in Below(view.mrt, 3) ensures r !in senders {
      assert ColumnOf(view, r).mrt == view.mrt[r];
    }
  }

  /** After the votes everyone who sent them is in the row. */
  lemma AfterVotes(view: View, replicas: set<ReplicaId>, senders: set<ReplicaId>)
    requires SeesPlan(view, replicas, senders, 2) && senders <= replicas
    ensures senders <= RowOf(view, TX).Keys
  {
    PlannedColumns();
    forall r | r in senders ensures r in RowOf(view, TX) {
      HeldIffInRow(view, r, TX);
    }
  }

  lemma PlanIsHonest(env: Env, n: nat, faulty: set<ReplicaId>) returns (runs: map<ReplicaId, HonestRun>)
    requires n <= TWO_64 && env == PlannedEnv(n)
    ensures HonestNetwork(env, faulty, runs)
  {
    runs := map r: ReplicaId | r in env.replicas :: RunAlong(env, r, PLAN, 2);
    forall r: ReplicaId | r in env.replicas ensures Unforgeable(env, r, runs[r]) {
      PlanIsUnforgeable(env, n, r);
    }
  }

  lemma SomeoneHoldsAlpha(env: Env, n: nat, senders: set<ReplicaId>) returns (a: seq<Vote>)
    requires n <= TWO_64 && env == PlannedEnv(n) && senders <= IdsBelow(n)
    ensures |RowOf(Run(env, a).view, TX)| >= |senders|
  {
    a := PlayPlan(env, n, senders, 2);
    AfterVotes(Run(env, a).view, IdsBelow(n), senders);
    var row := RowOf(Run(env, a).view, TX);
    SubsetSize(senders, row.Keys);
    assert |row| == |row.Keys|;
  }

  lemma SomeoneHasNotSeenIt(env: Env, n: nat, faulty: set<ReplicaId>, alpha: nat, beta: nat) returns (b: seq<Vote>)
    requires n <= TWO_64 && env == PlannedEnv(n) && faulty <= IdsBelow(n) && |faulty| == beta && Params(alpha, beta, n)
    ensures TX !in Run(env, b).view.tsps && RPerf(Run(env, b).view, alpha, beta) >= 3
  {
    b := PlayPlan(env, n, IdsBelow(n) - faulty, 1);
    RunKeepsInv(env, b);
    assert env.replicas.Keys == IdsBelow(n);
    AfterHeartbeats(env, Run(env, b).view, IdsBelow(n), IdsBelow(n) - faulty);
    var mrt := Run(env, b).view.mrt;
    assert |mrt| == |mrt.Keys|;
    PerfIsRaised(mrt, faulty, alpha, beta);
  }

  /**
   For all admissible parameters, with beta replicas faulty and silent: client B has not seen `TX` and reads a
   positive `rperf`, and client A holds at least alpha timestamps for `TX`.
   */
  lemma AssumptionsCanBeMet(n: nat, alpha: nat, beta: nat)
    returns (env: Env, faulty: set<ReplicaId>, runs: map<ReplicaId, HonestRun>, a: seq<Vote>, b: seq<Vote>)
    requires Params(alpha, beta, n) && n <= TWO_64
    ensures |env.replicas| == n && |faulty| == beta && faulty <= env.replicas.Keys && HonestNetwork(env, faulty, runs)
    ensures TX !in Run(env, b).view.tsps && RPerf(Run(env, b).view, alpha, beta) >= 3
    ensures |RowOf(Run(env, a).view, TX)| >= alpha
  {
    env, faulty := PlannedEnv(n), IdsBelow(beta);
    var senders := IdsBelow(n) - faulty;
    assert IdsBelow(n) == senders + faulty;
    assert env.replicas.Keys == IdsBelow(n) && |env.replicas| == |env.replicas.Keys|;
    runs := PlanIsHonest(env, n, faulty);
    a := SomeoneHoldsAlpha(env, n, senders);
    b := SomeoneHasNotSeenIt(env, n, faulty, alpha, beta);
  }

  lemma PerfIsRaised(mrt: Row, faulty: set<ReplicaId>, alpha: nat, beta: nat)
    requires Params(alpha, beta, |mrt|) && Below(mrt, 3) <= faulty && |faulty| == beta
    ensures MinOf(SortedValues(mrt), alpha, beta) >= 3
  {
    SubsetSize(Below(mrt, 3), faulty);
    MinByCounting(mrt, alpha, beta, 3);
  }

  // --- A client whose reported bounds are wrong in some run ---

  lemma OneVoteEquivocatesNot(r: ReplicaId, ts: Timestamp)
    requires r < 2
    ensures Equivocators(TWO_REPLICAS, [VoteFor(r, ts)]) == {} && CountersRun(TWO_REPLICAS, [VoteFor(r, ts)])
  {
    var a := [VoteFor(r, ts)];
    OneVoteView(TWO_REPLICAS, r, ts);
    forall q: ReplicaId | q in TWO_REPLICAS.replicas ensures !Equivocated(TWO_REPLICAS, a, q) && Run(TWO_REPLICAS, a).view.nextsn[q] < TWO_64 {
      assert forall v :: v in AcceptedFrom(TWO_REPLICAS, a, q) ==> v == VoteFor(r, ts);
      CounterIsSmall(TWO_REPLICAS, a, q);
    }
  }

  lemma CounterIsSmall(env: Env, a: seq<Vote>, q: ReplicaId)
    requires q in env.replicas && forall v :: v in AcceptedFrom(env, a, q) ==> v.sequenceNumber == 0
    ensures Run(env, a).view.nextsn[q] <= 1
  {
    ViewIsReorderBufferPerReplica(env, a, q);
    Buffer.BufferHoldsTheGap(AcceptedFrom(env, a, q));
    var next := Run(env, a).view.nextsn[q];
    assert next > 1 ==> 1 in Buffer.Received(AcceptedFrom(env, a, q));
  }

  lemma EverythingCanBeSigned()
    ensures Signable(TWO_REPLICAS)
  {
    forall r: ReplicaId, message: Bytes | r in TWO_REPLICAS.replicas ensures CanSign(TWO_REPLICAS, r, message) {
      assert ValidSignature(TWO_REPLICAS, r, message, ZeroBytes(SIGNATURE_SIZE));
    }
  }

  /**
   A client has one vote of one of two honest replicas. Some run of the two replicas takes another client below its
   `rmin`, and some run takes another client above its `rmax`.
   */
  lemma ReportedBoundsFailInSomeRun(ts: Timestamp)
    requires 0 < ts < U64_MAX
    ensures var a := [VoteFor(0, ts)];
            var view := Run(TWO_REPLICAS, a).view;
            && Params(1, 0, |TWO_REPLICAS.replicas|)
            && SomeClientGoesBelow(TWO_REPLICAS, a, TX, 1, 0, RMin(view, TX, 1, 0))
            && RMax(view, TX, 1, 0).Some? && SomeClientGoesAbove(TWO_REPLICAS, a, TX, 1, 0, RMax(view, TX, 1, 0).value)
  {
    var a := [VoteFor(0, ts)];
    var view := Run(TWO_REPLICAS, a).view;
    assert TWO_REPLICAS.replicas.Keys == {0, 1};
    EverythingCanBeSigned();
    OneVoteEquivocatesNot(0, ts);
    SingletonBounds(0, ts);
    OtherReplicaIsOpen(ts);
    LowerBoundFailsInSomeRunIff(TWO_REPLICAS, a, TX, 1, 0, ts);
    UpperBoundFailsInSomeRunIff(TWO_REPLICAS, a, TX, 1, 0, ts);
  }

  /** Nothing is known yet about when replica 1 votes. */
  lemma OtherReplicaIsOpen(ts: Timestamp)
    requires 0 < ts < U64_MAX
    ensures var view := Run(TWO_REPLICAS, [VoteFor(0, ts)]).view;
            |Below(Lowest(view, TX), ts) - {}| > 0 && |Above(Highest(view, TX), ts) - {}| > 0
  {
    var view := Run(TWO_REPLICAS, [VoteFor(0, ts)]).view;
    OneVoteView(TWO_REPLICAS, 0, ts);
    assert 1 in Below(Lowest(view, TX), ts) - {};
    assert 1 in Above(Highest(view, TX), ts) - {};
  }
}
