/** Runs of one and two votes, and what goes wrong in some of them. */
module SmallRuns {
  import opened Types
  import opened OrderStatistics
  import opened ReadBounds
  import opened ClientView
  import opened ClientApi

  const TX := Transaction([1])

  const TWO_REPLICAS := Env(map[0 := [], 1 := []], (key, message, signature) => true)

  function VoteFor(r: ReplicaId, ts: Timestamp): Vote {
    Vote(r, ts, 0, ZeroBytes(SIGNATURE_SIZE), Some(TX))
  }

  function ZeroBytes(n: nat): (b: Bytes)
    ensures |b| == n
  {
    seq(n, _ => 0)
  }

  /** What one accepted vote makes of the initial view. */
  lemma OneVoteView(env: Env, r: ReplicaId, ts: Timestamp)
    requires Accepts(env, VoteFor(r, ts))
    ensures var view := Run(env, [VoteFor(r, ts)]).view;
            TX in view.tsps && view.tsps[TX] == map[r := ts]
    ensures forall q: ReplicaId :: AcceptedFrom(env, [VoteFor(r, ts)], q) == if q == r then [VoteFor(r, ts)] else []
  {
    var v := VoteFor(r, ts);
    assert [v][..0] == [];
    assert Run(env, []) == RunState(Initial(env), false);
    assert forall q: ReplicaId :: AcceptedFrom(env, [], q) == [];
    var start := Initial(env);
    assert Run(env, [v]) == Receive(env, start, v);
    assert BacklogOf(TakeNext(start, r, v), r) == map[];
    assert !IsHeartbeat(TX);
  }

  lemma SingletonMiddle(r: ReplicaId, ts: Timestamp)
    ensures SortedValues(map[r := ts]) == [ts]
  {
    var row: Row := map[r := ts];
    assert Enumerates([r], row.Keys);
    assert ValuesIn([r], row) == [ts];
    IterationOrderIsIrrelevant([r], row);
    assert Sort([ts]) == [ts] by {
      assert [ts][..0] == [];
    }
  }

  lemma SingletonBounds(r: ReplicaId, ts: Timestamp)
    requires r < 2
    ensures var view := Run(TWO_REPLICAS, [VoteFor(r, ts)]).view;
            && RMin(view, TX, 1, 0) == ts
            && RMax(view, TX, 1, 0) == Some(ts)
            && Middle(SortedValues(RowOf(view, TX))) == ts
  {
    OneVoteView(TWO_REPLICAS, r, ts);
    SingletonReads(Run(TWO_REPLICAS, [VoteFor(r, ts)]).view, r, ts);
  }

  /** With alpha 1 and beta 0, a row of one timestamp gives that timestamp as both bounds and as the median. */
  lemma SingletonReads(view: View, r: ReplicaId, ts: Timestamp)
    requires TX in view.tsps && view.tsps[TX] == map[r := ts]
    ensures RMin(view, TX, 1, 0) == ts
    ensures RMax(view, TX, 1, 0) == Some(ts)
    ensures Middle(SortedValues(RowOf(view, TX))) == ts
  {
    SingletonMiddle(r, ts);
    assert KnownTimestamps(view, TX) == LatestTimestamps(view, TX) == map[r := ts];
    SingletonOrderStatistics(ts);
  }

  lemma SingletonOrderStatistics(ts: Timestamp)
    ensures MinOf([ts], 1, 0) == ts && MaxOf([ts], 1, 0) == Some(ts) && Middle([ts]) == ts
  {
    MinIndex([ts], 1, 0);
    MaxIndex([ts], 1, 0);
  }

  // --- A read that panics ---

  /** As soon as the first vote for a transaction is in, reads panic, except with alpha 1. */
  lemma FirstVotePanicsIff(env: Env, r: ReplicaId, ts: Timestamp, alpha: nat, beta: nat)
    requires Accepts(env, VoteFor(r, ts)) && Params(alpha, beta, |env.replicas|)
    ensures Panics(Run(env, [VoteFor(r, ts)]).view, TX, alpha, beta) <==> alpha > 1
  {
    OneVoteView(env, r, ts);
    MaxIndex(SortedValues(map[r := ts]), alpha, beta);
  }

  const SIX_REPLICAS := Env(map[0 := [], 1 := [], 2 := [], 3 := [], 4 := [], 5 := []], (key, message, signature) => true)

  /** With the smallest parameters that tolerate one faulty replica, a read after the first vote panics. */
  lemma ReadCanPanic()
    ensures Params(5, 1, |SIX_REPLICAS.replicas|)
    ensures Panics(Run(SIX_REPLICAS, [VoteFor(0, 7)]).view, TX, 5, 1)
  {
    assert SIX_REPLICAS.replicas.Keys == {0, 1, 2, 3, 4, 5};
    FirstVotePanicsIff(SIX_REPLICAS, 0, 7, 5, 1);
  }

  // --- Two votes ---

  lemma OneVoteRun(u: Vote)
    requires Accepts(TWO_REPLICAS, u) && u.sequenceNumber == 0
    ensures Run(TWO_REPLICAS, [u]) == RunState(TakeNext(Initial(TWO_REPLICAS), u.replicaId, u), false)
  {
    var start := Initial(TWO_REPLICAS);
    assert [u][..0] == [];
    assert Run(TWO_REPLICAS, []) == RunState(start, false);
    assert BacklogOf(TakeNext(start, u.replicaId, u), u.replicaId) == map[];
  }

  lemma TwoVotesRun(u: Vote, v: Vote)
    requires Accepts(TWO_REPLICAS, u) && Accepts(TWO_REPLICAS, v) && u.sequenceNumber == 0 == v.sequenceNumber && u.replicaId != v.replicaId
    ensures Run(TWO_REPLICAS, [u, v]).view == TakeNext(TakeNext(Initial(TWO_REPLICAS), u.replicaId, u), v.replicaId, v)
  {
    OneVoteRun(u);
    assert [u, v][..1] == [u];
    var first := TakeNext(Initial(TWO_REPLICAS), u.replicaId, u);
    assert BacklogOf(TakeNext(first, v.replicaId, v), v.replicaId) == map[];
  }

  lemma FirstVoteTaken(view: View, r: ReplicaId, ts: Timestamp)
    requires r in view.nextsn && r in view.mrt && view.mrt[r] == 0 && r !in RowOf(view, TX)
    ensures var after := TakeNext(view, r, VoteFor(r, ts));
            && after.mrt == view.mrt[r := ts] && TX in after.tsps && after.tsps[TX] == RowOf(view, TX)[r := ts]
            && after.tsVoteMsg == RecordVote(view.tsVoteMsg, ts, VoteFor(r, ts))
  {
    assert !IsHeartbeat(TX);
  }

  /** What one vote of each of two replicas makes of the view. */
  lemma TwoVotesView(x: Timestamp, y: Timestamp)
    ensures var view := Run(TWO_REPLICAS, [VoteFor(0, x), VoteFor(1, y)]).view;
            && TX in view.tsps && view.tsps[TX] == map[0 := x, 1 := y]
            && view.mrt == map[0 := x, 1 := y]
            && view.tsVoteMsg == RecordVote(map[x := VoteFor(0, x)], y, VoteFor(1, y))
  {
    var start := Initial(TWO_REPLICAS);
    TwoVotesRun(VoteFor(0, x), VoteFor(1, y));
    FirstVoteTaken(start, 0, x);
    FirstVoteTaken(TakeNext(start, 0, VoteFor(0, x)), 1, y);
  }

  /** The middle of a row of two is the larger timestamp; listed in the other order, the smaller one comes out. */
  lemma MiddleOfTwo(row: Row, x: Timestamp, y: Timestamp)
    requires row == map[0 := x, 1 := y] && y < x
    ensures Middle(SortedValues(row)) == x
  {
    assert row.Keys == {0, 1};
    assert Below(row, x) == {1} && Above(row, x) == {};
    AtLeastByCounting(row, 1, x);
    AtMostByCounting(row, 1, x);
  }

  lemma ListedMiddleOfTwo(row: Row, x: Timestamp, y: Timestamp, order: seq<ReplicaId>)
    requires row == map[0 := x, 1 := y] && order == [0, 1]
    ensures Enumerates(order, row.Keys) && Middle(ValuesIn(order, row)) == y
  {
    assert row.Keys == {0, 1};
    assert order[0] == 0 && order[1] == 1;
  }

  /** The confirmation timestamp reported for an unsorted row can differ from its median. */
  lemma ReportedConfirmationCanMissMedian(x: Timestamp, y: Timestamp, order: seq<ReplicaId>)
    requires y < x && order == [0, 1]
    ensures var row := RowOf(Run(TWO_REPLICAS, [VoteFor(0, x), VoteFor(1, y)]).view, TX);
            && Enumerates(order, row.Keys)
            && Middle(ValuesIn(order, row)) == y && Middle(SortedValues(row)) == x
  {
    TwoVotesView(x, y);
    MiddleOfTwo(map[0 := x, 1 := y], x, y);
    ListedMiddleOfTwo(map[0 := x, 1 := y], x, y, order);
  }

  /**
   Two replicas vote in the same round. The evidence for replica 1 is then replica 0's vote, in the record as well as
   in `cpp`: both votes of the reply come from replica 0.
   */
  lemma EvidenceCanBeAnothers()
    ensures var view := Run(TWO_REPLICAS, [VoteFor(0, 7), VoteFor(1, 7)]).view;
            && RowOf(view, TX).Keys == view.mrt.Keys == {0, 1}
            && (forall r: ReplicaId :: r in RowOf(view, TX) ==> Lookup(view.tsVoteMsg, RowOf(view, TX)[r]) == VoteFor(0, 7))
            && (forall r: ReplicaId :: r in view.mrt ==> Lookup(view.tsVoteMsg, view.mrt[r]) == VoteFor(0, 7))
  {
    TwoVotesView(7, 7);
    var row: Row := map[0 := 7, 1 := 7];
    assert row.Keys == {0, 1};
  }
}
