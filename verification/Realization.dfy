/**
 Every row that a client's view leaves possible is one that another client of the same network really comes to
 hold, with replicas that run the code. So the bounds that are exact for possible rows are exact for runs.
 */
module Realization {
  import opened Types
  import opened VoteFold
  import opened MessageLayout
  import opened OrderStatistics
  import opened ReadBounds
  import opened ClientView
  import opened ViewProperties
  import opened CrossClient
  import opened PlayedRuns
  import opened EndToEnd
  import Buffer = ReorderBuffer
  import Replicas = ReplicaRun

  // --- What a client can tell about the replicas ---

  /** The client has accepted two different votes of `r` under one number. */
  ghost predicate Equivocated(env: Env, a: seq<Vote>, r: ReplicaId) {
    exists u, v :: u in AcceptedFrom(env, a, r) && v in AcceptedFrom(env, a, r)
                && u.sequenceNumber == v.sequenceNumber && !SameMessage(u, v)
  }

  ghost function Equivocators(env: Env, a: seq<Vote>): set<ReplicaId> {
    set r | r in env.replicas && Equivocated(env, a, r)
  }

  /** What the client has accepted under a number. */
  ghost function SeenAt(vs: seq<Vote>, n: nat): Content {
    if exists v :: v in vs && v.sequenceNumber == n && v.transaction.Some? then
      var v :| v in vs && v.sequenceNumber == n && v.transaction.Some?;
      ContentOf(v)
    else Content(Transaction([]), 0)
  }

  ghost function SeenStream(env: Env, a: seq<Vote>, r: ReplicaId): Stream {
    (n: nat) => SeenAt(AcceptedFrom(env, a, r), n)
  }

  lemma SeenAtIsAccepted(vs: seq<Vote>, v: Vote)
    requires v in vs && v.transaction.Some?
    ensures exists u :: u in vs && u.sequenceNumber == v.sequenceNumber && u.transaction.Some? && ContentOf(u) == SeenAt(vs, v.sequenceNumber)
  {
  }

  lemma NotSeenEquivocating(env: Env, a: seq<Vote>, r: ReplicaId)
    requires r in env.replicas && r !in Equivocators(env, a)
    ensures Honest(env, a, r, SeenStream(env, a, r))
  {
    AcceptedAreAccepted(env, a, r);
    var vs := AcceptedFrom(env, a, r);
    forall v | v in vs ensures v.transaction.Some? && ContentOf(v) == SeenAt(vs, v.sequenceNumber) {
      SeenAtIsAccepted(vs, v);
      var u :| u in vs && u.sequenceNumber == v.sequenceNumber && u.transaction.Some? && ContentOf(u) == SeenAt(vs, v.sequenceNumber);
      assert SameMessage(u, v);
    }
  }

  lemma HonestDoNotEquivocate(env: Env, a: seq<Vote>, r: ReplicaId, str: Stream)
    requires r in env.replicas && Honest(env, a, r, str)
    ensures r !in Equivocators(env, a)
  {
    var vs := AcceptedFrom(env, a, r);
    forall u, v | u in vs && v in vs && u.sequenceNumber == v.sequenceNumber ensures SameMessage(u, v) {
      assert ContentOf(u) == ContentOf(v);
    }
  }

  // --- A world for every possible row ---

  /** The stream of replica `r` in the world where another client holds `other` for `tx`. */
  ghost function StreamInWorld(view: View, tx: Transaction, faulty: set<ReplicaId>, other: Row, r: ReplicaId, str: Stream): Stream
    requires r in other ==> r in view.nextsn
  {
    if r !in other then str
    else if r in faulty then (n: nat) => Content(tx, other[r])
    else if r in RowOf(view, tx) then str
    else (n: nat) => if n == view.nextsn[r] then Content(tx, other[r]) else str(n)
  }

  /** How many of those votes the other client has received. */
  function VotesInWorld(view: View, tx: Transaction, faulty: set<ReplicaId>, r: ReplicaId): nat
    requires r in view.nextsn
  {
    if r in faulty then 1 else if r in RowOf(view, tx) then view.nextsn[r] else view.nextsn[r] + 1
  }

  lemma WorldAgreesWithWhatWasSeen(env: Env, a: seq<Vote>, str: Stream, tx: Transaction, faulty: set<ReplicaId>, other: Row, r: ReplicaId)
    requires r in env.replicas && r !in faulty && Honest(env, a, r, str)
    ensures Honest(env, a, r, StreamInWorld(Run(env, a).view, tx, faulty, other, r, str))
  {
    var view := Run(env, a).view;
    UpdaterRefinesInOrderApplication(env, a, r, str);
    forall v <- AcceptedFrom(env, a, r) ensures v.sequenceNumber != view.nextsn[r] {
      assert v.sequenceNumber in Buffer.Received(AcceptedFrom(env, a, r));
    }
  }

  /** In that world, the other client's column for `r` holds exactly the timestamp `other` says. */
  lemma WorldYieldsTimestamp(env: Env, a: seq<Vote>, str: Stream, tx: Transaction, faulty: set<ReplicaId>, other: Row, r: ReplicaId)
    requires r in env.replicas && r in other && tx.data != HEARTBEAT
    requires r !in faulty ==> Honest(env, a, r, str) && Plausible(Run(env, a).view, tx, r, other[r])
    ensures var view := Run(env, a).view;
            var column := Fold(StreamInWorld(view, tx, faulty, other, r, str), VotesInWorld(view, tx, faulty, r));
            tx in column.first && column.first[tx] == other[r]
  {
    var view := Run(env, a).view;
    var str' := StreamInWorld(view, tx, faulty, other, r, str);
    if r in faulty {
      assert Fold(str', 1) == Apply(Fold(str', 0), str'(0));
    } else {
      var n := view.nextsn[r];
      UpdaterRefinesInOrderApplication(env, a, r, str);
      HeldIffInRow(view, r, tx);
      FoldDependsOnPrefix(str, str', n);
      assert r !in RowOf(view, tx) ==> Fold(str', n + 1) == Apply(Fold(str', n), str'(n));
    }
  }

  /** The streams of the world: what the client has seen, continued so that another client comes to hold `other`. */
  ghost function World(env: Env, a: seq<Vote>, tx: Transaction, faulty: set<ReplicaId>, other: Row): Streams {
    (r: ReplicaId) =>
      if r in env.replicas then StreamInWorld(Run(env, a).view, tx, faulty, other, r, SeenStream(env, a, r))
      else SeenStream(env, a, r)
  }

  function Counts(env: Env, view: View, tx: Transaction, faulty: set<ReplicaId>): map<ReplicaId, nat>
    requires Wf(env, view)
  {
    map r: ReplicaId | r in env.replicas :: VotesInWorld(view, tx, faulty, r)
  }

  /** No counter of the client has run through all 64-bit numbers. */
  ghost predicate CountersRun(env: Env, a: seq<Vote>) {
    forall r: ReplicaId :: r in env.replicas ==> Run(env, a).view.nextsn[r] < TWO_64
  }

  lemma WorldIsPlayable(env: Env, a: seq<Vote>, tx: Transaction, faulty: set<ReplicaId>, other: Row)
    requires Signable(env) && CountersRun(env, a) && other.Keys <= env.replicas.Keys
    ensures Playable(env, SomeOrder(other.Keys), World(env, a, tx, faulty, other), Counts(env, Run(env, a).view, tx, faulty))
  {
    var world, counts := World(env, a, tx, faulty, other), Counts(env, Run(env, a).view, tx, faulty);
    forall r <- SomeOrder(other.Keys) ensures r in counts && CanPlay(env, r, world(r), counts[r]) {
      assert r in other.Keys;
      EverythingCanBePlayed(env, r, world(r), counts[r]);
    }
  }

  lemma EverythingCanBePlayed(env: Env, r: ReplicaId, str: Stream, n: nat)
    requires Signable(env) && r in env.replicas && n <= TWO_64
    ensures CanPlay(env, r, str, n)
  {
    forall i: nat | i < n ensures CanSign(env, r, MessageToSign(str(i).tx.data, str(i).ts, i)) {
    }
  }

  /** What the other client receives in that world. */
  ghost function Arrivals(env: Env, a: seq<Vote>, tx: Transaction, faulty: set<ReplicaId>, other: Row): seq<Vote>
    requires Signable(env) && CountersRun(env, a) && other.Keys <= env.replicas.Keys
  {
    WorldIsPlayable(env, a, tx, faulty, other);
    PlayAll(env, SomeOrder(other.Keys), World(env, a, tx, faulty, other), Counts(env, Run(env, a).view, tx, faulty))
  }

  lemma OneReplicaOfWorld(env: Env, a: seq<Vote>, tx: Transaction, faulty: set<ReplicaId>, other: Row, r: ReplicaId)
    requires Signable(env) && tx.data != HEARTBEAT && CountersRun(env, a) && other.Keys <= env.replicas.Keys
    requires Equivocators(env, a) <= faulty
    requires r in env.replicas && (r in other && r !in faulty ==> Plausible(Run(env, a).view, tx, r, other[r]))
    ensures var world, b := World(env, a, tx, faulty, other), Arrivals(env, a, tx, faulty, other);
            && SameCell(RowOf(Run(env, b).view, tx), other, r)
            && Honest(env, b, r, world(r))
            && (r !in faulty ==> Honest(env, a, r, world(r)))
  {
    var world, b := World(env, a, tx, faulty, other), Arrivals(env, a, tx, faulty, other);
    var str := SeenStream(env, a, r);
    WorldIsPlayable(env, a, tx, faulty, other);
    PlayedColumns(env, SomeOrder(other.Keys), world, Counts(env, Run(env, a).view, tx, faulty), r);
    HeldIffInRow(Run(env, b).view, r, tx);
    if r !in faulty {
      NotSeenEquivocating(env, a, r);
      WorldAgreesWithWhatWasSeen(env, a, str, tx, faulty, other, r);
    }
    if r in other {
      WorldYieldsTimestamp(env, a, str, tx, faulty, other, r);
    }
  }

  // --- The replica runs behind a world ---

  /** One more than the largest number that a vote carries. */
  function NumbersBound(vs: seq<Vote>): (n: nat)
    ensures n <= TWO_64 && forall v <- vs :: v.sequenceNumber < n
  {
    if vs == [] then 0
    else
      var before, v := NumbersBound(vs[..|vs| - 1]), vs[|vs| - 1];
      assert vs == vs[..|vs| - 1] + [v];
      if v.sequenceNumber < before then before else v.sequenceNumber + 1
  }

  /** Every vote that the client accepted from `r` is one that the log-vote loop broadcast in the run. */
  ghost predicate Delivered(env: Env, arrivals: seq<Vote>, r: ReplicaId, run: HonestRun) {
    forall v :: v in AcceptedFrom(env, arrivals, r) ==> exists x :: BroadcastIn(run, x) && SameMessage(x.vote, v)
  }

  ghost predicate BroadcastIn(run: HonestRun, x: Replicas.Sent) {
    x in Replicas.Execute(run.replica, run.actions).sent && x.origin.FromLogVote?
  }

  lemma DeliveredIsGenuine(env: Env, arrivals: seq<Vote>, r: ReplicaId, run: HonestRun)
    requires Delivered(env, arrivals, r, run)
    ensures Genuine(env, arrivals, r, run)
  {
    forall v | v in AcceptedFrom(env, arrivals, r) ensures exists u :: u in SignedBy(run) && SameMessage(u, v) {
      var x :| BroadcastIn(run, x) && SameMessage(x.vote, v);
      var i :| 0 <= i < |Replicas.Execute(run.replica, run.actions).sent| && Replicas.Execute(run.replica, run.actions).sent[i] == x;
      Replicas.SentVotesAreSigned(run.replica, run.actions, i);
    }
  }

  /** The run of a replica that votes as the stream says. */
  ghost function RunAlong(env: Env, r: ReplicaId, str: Stream, n: nat): HonestRun
    requires n <= TWO_64
  {
    HonestRun(SignerOf(env, r), ServeAll(SignerOf(env, r), str, n))
  }

  lemma StreamIsDelivered(env: Env, arrivals: seq<Vote>, r: ReplicaId, str: Stream, n: nat)
    requires Honest(env, arrivals, r, str) && n <= TWO_64
    requires forall v <- AcceptedFrom(env, arrivals, r) :: v.sequenceNumber < n
    ensures Delivered(env, arrivals, r, RunAlong(env, r, str, n))
  {
    var run := RunAlong(env, r, str, n);
    var sent := Replicas.Execute(run.replica, run.actions).sent;
    ExecuteServes(run.replica, str, n);
    forall v | v in AcceptedFrom(env, arrivals, r) ensures exists x :: BroadcastIn(run, x) && SameMessage(x.vote, v) {
      var x := sent[v.sequenceNumber];
      assert x == Replicas.Sent(Replicas.FromLogVote, VoteAt(run.replica, str, v.sequenceNumber));
      assert ContentOf(v) == str(v.sequenceNumber);
      assert BroadcastIn(run, x) && SameMessage(x.vote, v);
    }
  }

  /** Two clients whose votes from all replicas but `faulty` were broadcast in the replicas' runs. */
  ghost predicate RunningNetwork(env: Env, a: seq<Vote>, b: seq<Vote>, faulty: set<ReplicaId>, runs: map<ReplicaId, HonestRun>) {
    forall r: ReplicaId :: r in env.replicas && r !in faulty ==>
      r in runs && Delivered(env, a, r, runs[r]) && Delivered(env, b, r, runs[r])
  }

  lemma RunningNetworkIsGenuine(env: Env, a: seq<Vote>, b: seq<Vote>, faulty: set<ReplicaId>, runs: map<ReplicaId, HonestRun>)
    requires RunningNetwork(env, a, b, faulty, runs)
    ensures GenuineNetwork(env, a, b, faulty, runs)
  {
    forall r: ReplicaId | r in env.replicas && r !in faulty
      ensures r in runs && Genuine(env, a, r, runs[r]) && Genuine(env, b, r, runs[r])
    {
      DeliveredIsGenuine(env, a, r, runs[r]);
      DeliveredIsGenuine(env, b, r, runs[r]);
    }
  }

  /** Only faulty replicas are seen to equivocate. */
  lemma EquivocatorsAreFaulty(env: Env, a: seq<Vote>, b: seq<Vote>, faulty: set<ReplicaId>, runs: map<ReplicaId, HonestRun>)
    requires GenuineNetwork(env, a, b, faulty, runs)
    ensures Equivocators(env, a) <= faulty
  {
    GenuineNetworkIsOneNetwork(env, a, b, faulty, runs);
    forall r | r in Equivocators(env, a) ensures r in faulty {
      if r !in faulty {
        HonestDoNotEquivocate(env, a, r, StreamsOf(runs)(r));
      }
    }
  }

  lemma AcceptedArrived(env: Env, arrivals: seq<Vote>, r: ReplicaId)
    ensures forall v <- AcceptedFrom(env, arrivals, r) :: v.sequenceNumber < NumbersBound(arrivals)
  {
    AcceptedWereSent(env, arrivals, r);
  }

  lemma {:induction false} AcceptedWereSent(env: Env, arrivals: seq<Vote>, r: ReplicaId)
    ensures forall v <- AcceptedFrom(env, arrivals, r) :: v in arrivals
  {
    if arrivals != [] {
      AcceptedWereSent(env, arrivals[..|arrivals| - 1], r);
      assert arrivals == arrivals[..|arrivals| - 1] + [arrivals[|arrivals| - 1]];
    }
  }

  ghost function RunsOfWorld(env: Env, world: Streams, n: nat): map<ReplicaId, HonestRun>
    requires n <= TWO_64
  {
    map r: ReplicaId | r in env.replicas :: RunAlong(env, r, world(r), n)
  }

  /**
   Whatever row a client's view leaves possible when the replicas it has seen equivocate are among the faulty ones:
   there are runs of the other replicas that account for everything the client has accepted from them, and a run of
   another client of the same network at whose end that client holds exactly this row.
   */
  lemma EveryPossibleRowIsHeld(env: Env, a: seq<Vote>, tx: Transaction, faulty: set<ReplicaId>, other: Row, alpha: nat, beta: nat)
    returns (runs: map<ReplicaId, HonestRun>, b: seq<Vote>)
    requires Signable(env) && tx.data != HEARTBEAT && CountersRun(env, a) && Equivocators(env, a) <= faulty
    requires CouldHold(Run(env, a).view, tx, faulty, other, alpha, beta)
    ensures RunningNetwork(env, a, b, faulty, runs) && RowOf(Run(env, b).view, tx) == other
  {
    var world := World(env, a, tx, faulty, other);
    b := Arrivals(env, a, tx, faulty, other);
    var n := if NumbersBound(a) < NumbersBound(b) then NumbersBound(b) else NumbersBound(a);
    runs := RunsOfWorld(env, world, n);
    forall r: ReplicaId | r in env.replicas
      ensures SameCell(RowOf(Run(env, b).view, tx), other, r)
      ensures r !in faulty ==> Delivered(env, a, r, runs[r]) && Delivered(env, b, r, runs[r])
    {
      OneReplicaOfWorld(env, a, tx, faulty, other, r);
      if r !in faulty {
        AcceptedArrived(env, a, r);
        AcceptedArrived(env, b, r);
        StreamIsDelivered(env, a, r, world(r), n);
        StreamIsDelivered(env, b, r, world(r), n);
      }
    }
    RowStaysInReplicas(env, b, tx);
    SameCellsSameRow(RowOf(Run(env, b).view, tx), other, env.replicas.Keys);
  }

  lemma RowStaysInReplicas(env: Env, arrivals: seq<Vote>, tx: Transaction)
    ensures RowOf(Run(env, arrivals).view, tx).Keys <= env.replicas.Keys
  {
    RunKeepsInv(env, arrivals);
  }

  // --- When a client's bound is contradicted ---

  /** Another client of the network, in some run, holds alpha timestamps for `tx` with a median below `x`. */
  ghost predicate SomeClientGoesBelow(env: Env, a: seq<Vote>, tx: Transaction, alpha: nat, beta: nat, x: nat) {
    exists faulty, runs, b :: GoesBelow(env, a, tx, alpha, beta, x, faulty, runs, b)
  }

  ghost predicate GoesBelow(env: Env, a: seq<Vote>, tx: Transaction, alpha: nat, beta: nat, x: nat, faulty: set<ReplicaId>, runs: map<ReplicaId, HonestRun>, b: seq<Vote>) {
    && |faulty| <= beta && GenuineNetwork(env, a, b, faulty, runs)
    && |RowOf(Run(env, b).view, tx)| >= alpha && Middle(SortedValues(RowOf(Run(env, b).view, tx))) < x
  }

  /** The same with nothing but votes that log-vote loops broadcast. */
  ghost predicate BroadcastsGoBelow(env: Env, a: seq<Vote>, tx: Transaction, alpha: nat, beta: nat, x: nat) {
    exists faulty, runs, b :: GoesBelow(env, a, tx, alpha, beta, x, faulty, runs, b) && RunningNetwork(env, a, b, faulty, runs)
  }

  ghost predicate SomeClientGoesAbove(env: Env, a: seq<Vote>, tx: Transaction, alpha: nat, beta: nat, x: nat) {
    exists faulty, runs, b :: GoesAbove(env, a, tx, alpha, beta, x, faulty, runs, b)
  }

  ghost predicate GoesAbove(env: Env, a: seq<Vote>, tx: Transaction, alpha: nat, beta: nat, x: nat, faulty: set<ReplicaId>, runs: map<ReplicaId, HonestRun>, b: seq<Vote>) {
    && |faulty| <= beta && GenuineNetwork(env, a, b, faulty, runs)
    && |RowOf(Run(env, b).view, tx)| >= alpha && Middle(SortedValues(RowOf(Run(env, b).view, tx))) > x
  }

  ghost predicate BroadcastsGoAbove(env: Env, a: seq<Vote>, tx: Transaction, alpha: nat, beta: nat, x: nat) {
    exists faulty, runs, b :: GoesAbove(env, a, tx, alpha, beta, x, faulty, runs, b) && RunningNetwork(env, a, b, faulty, runs)
  }

  lemma BelowIsReached(env: Env, a: seq<Vote>, tx: Transaction, alpha: nat, beta: nat, x: nat)
    requires Params(alpha, beta, |env.replicas|)
    requires Signable(env) && tx.data != HEARTBEAT && CountersRun(env, a) && |Equivocators(env, a)| <= beta
    requires |Below(Lowest(Run(env, a).view, tx), x) - Equivocators(env, a)| > alpha / 2 - beta
    ensures BroadcastsGoBelow(env, a, tx, alpha, beta, x)
  {
    RunIsConfigured(env, a, alpha, beta);
    var faulty, other := LowerBoundIsTight(Run(env, a).view, tx, Equivocators(env, a), alpha, beta, x);
    var runs, b := EveryPossibleRowIsHeld(env, a, tx, faulty, other, alpha, beta);
    RunningNetworkIsGenuine(env, a, b, faulty, runs);
    assert GoesBelow(env, a, tx, alpha, beta, x, faulty, runs, b);
  }

  lemma AboveIsReached(env: Env, a: seq<Vote>, tx: Transaction, alpha: nat, beta: nat, x: nat)
    requires Params(alpha, beta, |env.replicas|)
    requires Signable(env) && tx.data != HEARTBEAT && CountersRun(env, a) && |Equivocators(env, a)| <= beta
    requires |Above(Highest(Run(env, a).view, tx), x) - Equivocators(env, a)| > (alpha + 1) / 2 - 1 - beta
    ensures BroadcastsGoAbove(env, a, tx, alpha, beta, x)
  {
    RunIsConfigured(env, a, alpha, beta);
    var faulty, other := UpperBoundIsTight(Run(env, a).view, tx, Equivocators(env, a), alpha, beta, x);
    var runs, b := EveryPossibleRowIsHeld(env, a, tx, faulty, other, alpha, beta);
    RunningNetworkIsGenuine(env, a, b, faulty, runs);
    assert GoesAbove(env, a, tx, alpha, beta, x, faulty, runs, b);
  }

  lemma BelowNeedsRoom(env: Env, a: seq<Vote>, tx: Transaction, alpha: nat, beta: nat, x: nat, faulty: set<ReplicaId>, runs: map<ReplicaId, HonestRun>, b: seq<Vote>)
    requires Params(alpha, beta, |env.replicas|) && GoesBelow(env, a, tx, alpha, beta, x, faulty, runs, b)
    ensures |Equivocators(env, a)| <= beta
    ensures |Below(Lowest(Run(env, a).view, tx), x) - Equivocators(env, a)| > alpha / 2 - beta
  {
    var suspects := Equivocators(env, a);
    EquivocatorsAreFaulty(env, a, b, faulty, runs);
    SubsetSize(suspects, faulty);
    GenuineNetworkIsOneNetwork(env, a, b, faulty, runs);
    RunsCouldHold(env, a, b, faulty, StreamsOf(runs), tx, alpha, beta);
    if |Below(Lowest(Run(env, a).view, tx), x) - suspects| <= alpha / 2 - beta {
      LowerBoundHolds(Run(env, a).view, tx, suspects, alpha, beta, x, faulty, RowOf(Run(env, b).view, tx));
    }
  }

  lemma AboveNeedsRoom(env: Env, a: seq<Vote>, tx: Transaction, alpha: nat, beta: nat, x: nat, faulty: set<ReplicaId>, runs: map<ReplicaId, HonestRun>, b: seq<Vote>)
    requires Params(alpha, beta, |env.replicas|) && GoesAbove(env, a, tx, alpha, beta, x, faulty, runs, b)
    ensures |Equivocators(env, a)| <= beta
    ensures |Above(Highest(Run(env, a).view, tx), x) - Equivocators(env, a)| > (alpha + 1) / 2 - 1 - beta
  {
    var suspects := Equivocators(env, a);
    EquivocatorsAreFaulty(env, a, b, faulty, runs);
    SubsetSize(suspects, faulty);
    GenuineNetworkIsOneNetwork(env, a, b, faulty, runs);
    RunsCouldHold(env, a, b, faulty, StreamsOf(runs), tx, alpha, beta);
    if |Above(Highest(Run(env, a).view, tx), x) - suspects| <= (alpha + 1) / 2 - 1 - beta {
      UpperBoundHolds(Run(env, a).view, tx, suspects, alpha, beta, x, faulty, RowOf(Run(env, b).view, tx));
    }
  }

  lemma BelowFailsByCounting(env: Env, a: seq<Vote>, tx: Transaction, alpha: nat, beta: nat, x: nat)
    requires Params(alpha, beta, |env.replicas|) && Signable(env) && tx.data != HEARTBEAT && CountersRun(env, a)
    ensures SomeClientGoesBelow(env, a, tx, alpha, beta, x) <==>
            && |Equivocators(env, a)| <= beta
            && |Below(Lowest(Run(env, a).view, tx), x) - Equivocators(env, a)| > alpha / 2 - beta
    ensures SomeClientGoesBelow(env, a, tx, alpha, beta, x) <==> BroadcastsGoBelow(env, a, tx, alpha, beta, x)
  {
    if SomeClientGoesBelow(env, a, tx, alpha, beta, x) {
      var faulty, runs, b :| GoesBelow(env, a, tx, alpha, beta, x, faulty, runs, b);
      BelowNeedsRoom(env, a, tx, alpha, beta, x, faulty, runs, b);
    }
    if |Equivocators(env, a)| <= beta && |Below(Lowest(Run(env, a).view, tx), x) - Equivocators(env, a)| > alpha / 2 - beta {
      BelowIsReached(env, a, tx, alpha, beta, x);
    }
  }

  lemma AboveFailsByCounting(env: Env, a: seq<Vote>, tx: Transaction, alpha: nat, beta: nat, x: nat)
    requires Params(alpha, beta, |env.replicas|) && Signable(env) && tx.data != HEARTBEAT && CountersRun(env, a)
    ensures SomeClientGoesAbove(env, a, tx, alpha, beta, x) <==>
            && |Equivocators(env, a)| <= beta
            && |Above(Highest(Run(env, a).view, tx), x) - Equivocators(env, a)| > (alpha + 1) / 2 - 1 - beta
    ensures SomeClientGoesAbove(env, a, tx, alpha, beta, x) <==> BroadcastsGoAbove(env, a, tx, alpha, beta, x)
  {
    if SomeClientGoesAbove(env, a, tx, alpha, beta, x) {
      var faulty, runs, b :| GoesAbove(env, a, tx, alpha, beta, x, faulty, runs, b);
      AboveNeedsRoom(env, a, tx, alpha, beta, x, faulty, runs, b);
    }
    if |Equivocators(env, a)| <= beta && |Above(Highest(Run(env, a).view, tx), x) - Equivocators(env, a)| > (alpha + 1) / 2 - 1 - beta {
      AboveIsReached(env, a, tx, alpha, beta, x);
    }
  }

  /** Without suspects, counting is comparing with the filled-in bound. */
  lemma BelowWithoutSuspects(view: View, tx: Transaction, suspects: set<ReplicaId>, alpha: nat, beta: nat, x: nat)
    requires Params(alpha, beta, |view.mrt|) && suspects == {}
    ensures |Below(Lowest(view, tx), x) - suspects| > alpha / 2 - beta <==> x > BestLowerBound(view, tx, alpha, beta)
  {
    LowestByCounting(view, tx, alpha, beta, x);
    assert Below(Lowest(view, tx), x) - suspects == Below(Lowest(view, tx), x);
  }

  lemma AboveWithoutSuspects(view: View, tx: Transaction, suspects: set<ReplicaId>, alpha: nat, beta: nat, x: nat)
    requires Params(alpha, beta, |view.mrt|) && suspects == {}
    ensures BestUpperBound(view, tx, alpha, beta).Some?
    ensures |Above(Highest(view, tx), x) - suspects| > (alpha + 1) / 2 - 1 - beta <==> x < BestUpperBound(view, tx, alpha, beta).value
  {
    HighestByCounting(view, tx, alpha, beta, x);
    assert Above(Highest(view, tx), x) - suspects == Above(Highest(view, tx), x);
  }

  /**
   Over runs of replicas and clients: another client comes to hold a median below `x` if and only if the client has
   seen at most beta replicas equivocate and more than alpha/2 - beta of the others can still turn out below `x`.
   With `rmin` for `x`, this says exactly when `rmin` is wrong for someone. Broadcast votes alone bring it about if
   anything does. For a client that has seen nobody equivocate, `x` then exceeds the bound with the most recent
   timestamps filled in.
   */
  lemma LowerBoundFailsInSomeRunIff(env: Env, a: seq<Vote>, tx: Transaction, alpha: nat, beta: nat, x: nat)
    requires Params(alpha, beta, |env.replicas|) && Signable(env) && tx.data != HEARTBEAT && CountersRun(env, a)
    ensures SomeClientGoesBelow(env, a, tx, alpha, beta, x) <==>
            && |Equivocators(env, a)| <= beta
            && |Below(Lowest(Run(env, a).view, tx), x) - Equivocators(env, a)| > alpha / 2 - beta
    ensures SomeClientGoesBelow(env, a, tx, alpha, beta, x) <==> BroadcastsGoBelow(env, a, tx, alpha, beta, x)
    ensures Equivocators(env, a) == {} ==>
              (SomeClientGoesBelow(env, a, tx, alpha, beta, x) <==> x > BestLowerBound(Run(env, a).view, tx, alpha, beta))
  {
    BelowFailsByCounting(env, a, tx, alpha, beta, x);
    if Equivocators(env, a) == {} {
      RunIsConfigured(env, a, alpha, beta);
      BelowWithoutSuspects(Run(env, a).view, tx, Equivocators(env, a), alpha, beta, x);
    }
  }

  lemma UpperBoundFailsInSomeRunIff(env: Env, a: seq<Vote>, tx: Transaction, alpha: nat, beta: nat, x: nat)
    requires Params(alpha, beta, |env.replicas|) && Signable(env) && tx.data != HEARTBEAT && CountersRun(env, a)
    ensures SomeClientGoesAbove(env, a, tx, alpha, beta, x) <==>
            && |Equivocators(env, a)| <= beta
            && |Above(Highest(Run(env, a).view, tx), x) - Equivocators(env, a)| > (alpha + 1) / 2 - 1 - beta
    ensures SomeClientGoesAbove(env, a, tx, alpha, beta, x) <==> BroadcastsGoAbove(env, a, tx, alpha, beta, x)
    ensures BestUpperBound(Run(env, a).view, tx, alpha, beta).Some?
    ensures Equivocators(env, a) == {} ==>
              (SomeClientGoesAbove(env, a, tx, alpha, beta, x) <==> x < BestUpperBound(Run(env, a).view, tx, alpha, beta).value)
  {
    AboveFailsByCounting(env, a, tx, alpha, beta, x);
    RunIsConfigured(env, a, alpha, beta);
    AboveWithoutSuspects(Run(env, a).view, tx, {}, alpha, beta, x);
  }
}
