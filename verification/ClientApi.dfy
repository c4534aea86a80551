/** The client's read service over the shared view. */
module ClientApi {
  import opened Types
  import opened OrderStatistics
  import opened ReadBounds
  import opened ViewProperties
  import Spec = ClientView
  import Data = PodDataUpdater

  datatype TxRecord = TxRecord(tx: Transaction, rmin: Timestamp, rmax: Timestamp, rconf: Option<Timestamp>, ctx: seq<Vote>)

  datatype PodData = PodData(t: seq<TxRecord>, rperf: Timestamp, cpp: seq<Vote>)

  /** The stored vote for a timestamp, or an all-default vote. */
  function Lookup(msgs: map<Timestamp, Vote>, ts: Timestamp): Vote {
    if ts in msgs then msgs[ts] else DEFAULT_VOTE
  }

  /** What the lower bound is taken over: the held timestamps if the transaction is known, else the most recent ones. */
  function KnownTimestamps(view: Spec.View, tx: Transaction): Row {
    if tx in view.tsps then view.tsps[tx] else view.mrt
  }

  /** What the upper bound is taken over: the held timestamps if the transaction is known, else the maximum for everyone. */
  function LatestTimestamps(view: Spec.View, tx: Transaction): Row {
    if tx in view.tsps then view.tsps[tx] else map r: ReplicaId | r in view.mrt :: U64_MAX
  }

  ghost function RMin(view: Spec.View, tx: Transaction, alpha: nat, beta: nat): Timestamp {
    MinOf(SortedValues(KnownTimestamps(view, tx)), alpha, beta)
  }

  ghost function RMax(view: Spec.View, tx: Transaction, alpha: nat, beta: nat): Option<Timestamp> {
    MaxOf(SortedValues(LatestTimestamps(view, tx)), alpha, beta)
  }

  ghost function RPerf(view: Spec.View, alpha: nat, beta: nat): Timestamp {
    MinOf(SortedValues(view.mrt), alpha, beta)
  }

  /** What one record of a reply says about its transaction. */
  ghost predicate RecordOf(rec: TxRecord, view: Spec.View, alpha: nat, beta: nat) {
    && rec.tx in view.tsps
    && rec.rmin == RMin(view, rec.tx, alpha, beta)
    && RMax(view, rec.tx, alpha, beta) == Some(rec.rmax)
    && exists order :: Enumerates(order, view.tsps[rec.tx].Keys)
                    && rec.rconf == Some(Middle(ValuesIn(order, view.tsps[rec.tx])))
                    && CarryTimestamps(rec.ctx, ValuesIn(order, view.tsps[rec.tx]), view.tsVoteMsg)
  }

  /** One record for each of the transactions `txs`, and nothing else. */
  ghost predicate EachOnce(t: seq<TxRecord>, txs: set<Transaction>) {
    && (forall tx :: tx in txs <==> HasRecord(t, tx))
    && (forall i, j :: 0 <= i < j < |t| ==> t[i].tx != t[j].tx)
  }

  ghost predicate HasRecord(t: seq<TxRecord>, tx: Transaction) {
    exists i :: 0 <= i < |t| && t[i].tx == tx
  }

  ghost predicate RecordsOf(t: seq<TxRecord>, view: Spec.View, alpha: nat, beta: nat) {
    forall i :: 0 <= i < |t| ==> RecordOf(t[i], view, alpha, beta)
  }

  /** What a read replies when the view is `view` from its first step to its last. */
  ghost predicate ReplyOf(data: PodData, view: Spec.View, alpha: nat, beta: nat) {
    && EachOnce(data.t, view.tsps.Keys)
    && RecordsOf(data.t, view, alpha, beta)
    && data.rperf == RPerf(view, alpha, beta)
    && exists order :: Enumerates(order, view.mrt.Keys) && CarryTimestamps(data.cpp, ValuesIn(order, view.mrt), view.tsVoteMsg)
  }

  lemma RecordsSnoc(t: seq<TxRecord>, view: Spec.View, alpha: nat, beta: nat, rec: TxRecord)
    requires RecordsOf(t, view, alpha, beta) && RecordOf(rec, view, alpha, beta)
    ensures RecordsOf(t + [rec], view, alpha, beta)
  {
  }

  /** A walk over `txs` has these records so far and this worklist left; none of the records' transactions panics. */
  ghost predicate Collected(t: seq<TxRecord>, todo: set<Transaction>, view: Spec.View, alpha: nat, beta: nat) {
    && todo <= view.tsps.Keys
    && EachOnce(t, view.tsps.Keys - todo)
    && RecordsOf(t, view, alpha, beta)
    && forall tx <- view.tsps.Keys - todo :: !Panics(view, tx, alpha, beta)
  }

  lemma CollectOneMore(t: seq<TxRecord>, todo: set<Transaction>, view: Spec.View, alpha: nat, beta: nat, rec: TxRecord)
    requires Collected(t, todo, view, alpha, beta) && rec.tx in todo
    requires RecordOf(rec, view, alpha, beta) && !Panics(view, rec.tx, alpha, beta)
    ensures Collected(t + [rec], todo - {rec.tx}, view, alpha, beta)
  {
    RecordsSnoc(t, view, alpha, beta, rec);
    EachOnceSnoc(t, view.tsps.Keys - todo, rec);
    assert view.tsps.Keys - (todo - {rec.tx}) == view.tsps.Keys - todo + {rec.tx};
  }

  /** The upper bound of `tx` panics. */
  ghost predicate Panics(view: Spec.View, tx: Transaction, alpha: nat, beta: nat) {
    tx in view.tsps && RMax(view, tx, alpha, beta).None?
  }

  lemma EachOnceSnoc(t: seq<TxRecord>, txs: set<Transaction>, rec: TxRecord)
    requires EachOnce(t, txs) && rec.tx !in txs
    ensures EachOnce(t + [rec], txs + {rec.tx})
  {
    var t' := t + [rec];
    assert t'[|t|] == rec;
    forall tx ensures HasRecord(t', tx) <==> tx in txs + {rec.tx} {
      if HasRecord(t, tx) {
        var i :| 0 <= i < |t| && t[i].tx == tx;
        assert t'[i] == t[i];
      }
    }
    forall i | 0 <= i < |t| ensures t[i].tx != rec.tx {
      assert HasRecord(t, t[i].tx);
    }
  }

  /** The votes are those the store gives for the timestamps, and each carries its timestamp. */
  ghost predicate CarryTimestamps(votes: seq<Vote>, timestamps: seq<Timestamp>, msgs: map<Timestamp, Vote>) {
    && |votes| == |timestamps|
    && forall i :: 0 <= i < |votes| ==> votes[i] == Lookup(msgs, timestamps[i]) && votes[i].timestamp == timestamps[i]
  }

  lemma CarryOn(votes: seq<Vote>, timestamps: seq<Timestamp>, msgs: map<Timestamp, Vote>, ts: Timestamp)
    requires CarryTimestamps(votes, timestamps, msgs) && Lookup(msgs, ts).timestamp == ts
    ensures CarryTimestamps(votes + [Lookup(msgs, ts)], timestamps + [ts], msgs)
  {
  }

  /** The loop's worklist and what it has listed so far make up the keys it walks over. */
  ghost predicate Walks(order: seq<ReplicaId>, todo: set<ReplicaId>, keys: set<ReplicaId>) {
    NoDuplicates(order) && (forall r: ReplicaId :: r in keys <==> r in order || r in todo) && forall r <- order :: r !in todo
  }

  lemma WalkOn(order: seq<ReplicaId>, todo: set<ReplicaId>, keys: set<ReplicaId>, r: ReplicaId)
    requires Walks(order, todo, keys) && r in todo
    ensures Walks(order + [r], todo - {r}, keys)
  {
    assert r !in order;
  }

  /** A walk over at least the row's keys, with `todo` left, that has listed these replicas with their timestamps. */
  ghost predicate Listed(order: seq<ReplicaId>, timestamps: seq<Timestamp>, todo: set<ReplicaId>, row: Row) {
    && (forall r <- order :: r in row)
    && Walks(order, todo * row.Keys, row.Keys)
    && timestamps == ValuesIn(order, row)
  }

  /** The walk passes a replica, which counts only if the row has it. */
  lemma ListNext(order: seq<ReplicaId>, timestamps: seq<Timestamp>, todo: set<ReplicaId>, row: Row, r: ReplicaId)
    requires Listed(order, timestamps, todo, row) && r in todo
    ensures if r in row then Listed(order + [r], timestamps + [row[r]], todo - {r}, row) else Listed(order, timestamps, todo - {r}, row)
  {
    if r in row {
      WalkOn(order, todo * row.Keys, row.Keys, r);
      assert todo * row.Keys - {r} == (todo - {r}) * row.Keys;
    } else {
      assert todo * row.Keys == (todo - {r}) * row.Keys;
    }
  }

  lemma ListedAll(order: seq<ReplicaId>, timestamps: seq<Timestamp>, row: Row)
    requires Listed(order, timestamps, {}, row)
    ensures Enumerates(order, row.Keys) && Sort(timestamps) == SortedValues(row)
  {
    IterationOrderIsIrrelevant(order, row);
  }

  /** Padding all listed timestamps first and sorting then gives the lower bound too. */
  lemma PaddedBeforeSorting(order: seq<ReplicaId>, timestamps: seq<Timestamp>, row: Row, alpha: nat, beta: nat)
    requires Listed(order, timestamps, {}, row)
    ensures Middle(Take(Sort(Padding(beta, 0) + timestamps), alpha)) == MinOf(SortedValues(row), alpha, beta)
  {
    PaddingCommutesWithSorting(timestamps, beta);
    ListedAll(order, timestamps, row);
  }

  class ClientApiService {
    const data: Data.Updater
    const alpha: nat
    const beta: nat

    constructor (data: Data.Updater, alpha: nat, beta: nat)
      ensures this.data == data && this.alpha == alpha && this.beta == beta
    {
      this.data, this.alpha, this.beta := data, alpha, beta;
    }

    /** The earliest timestamp the client considers possible for `tx`. */
    method MinPossibleTs(tx: Transaction) returns (rmin: Timestamp)
      requires ViewInv(data.env, data.State())
      ensures rmin == RMin(data.State(), tx, alpha, beta)
    {
      var timestamps: seq<Timestamp> := [];
      ghost var order: seq<ReplicaId> := [];
      ghost var row := KnownTimestamps(data.State(), tx);
      var todo := data.env.replicas.Keys;
      while todo != {}
        invariant todo <= data.env.replicas.Keys
        invariant Listed(order, timestamps, todo, row)
        decreases todo
      {
        var r: ReplicaId :| r in todo;
        ListNext(order, timestamps, todo, row, r);
        todo := todo - {r};
        if tx in data.tsps {
          if r in data.tsps[tx] {
            timestamps := timestamps + [data.tsps[tx][r]];
            order := order + [r];
          }
        } else if r in data.mrt {
          timestamps := timestamps + [data.mrt[r]];
          order := order + [r];
        }
      }
      ListedAll(order, timestamps, row);
      timestamps := Sort(timestamps);
      rmin := Middle(Take(Padding(beta, 0) + timestamps, alpha));
    }

    /** The same for a transaction not seen yet: the padding comes first here, and the sort after it. */
    method MinPossibleTsForNewTx() returns (rperf: Timestamp)
      requires ViewInv(data.env, data.State())
      ensures rperf == RPerf(data.State(), alpha, beta)
    {
      var timestamps := Padding(beta, 0);
      ghost var recent: seq<Timestamp> := [];
      ghost var order: seq<ReplicaId> := [];
      var mrt := data.mrt;
      var todo := mrt.Keys;
      while todo != {}
        invariant todo <= mrt.Keys
        invariant Listed(order, recent, todo, mrt)
        invariant timestamps == Padding(beta, 0) + recent
        decreases todo
      {
        var r: ReplicaId :| r in todo;
        ListNext(order, recent, todo, mrt, r);
        todo := todo - {r};
        timestamps := timestamps + [mrt[r]];
        order, recent := order + [r], recent + [mrt[r]];
      }
      PaddedBeforeSorting(order, recent, mrt, alpha, beta);
      rperf := Middle(Take(Sort(timestamps), alpha));
    }

    /** Pads with maxima, splits off the last alpha elements and takes their middle; `None` where the split panics. */
    method UpperMiddle(sorted: seq<Timestamp>) returns (rmax: Option<Timestamp>)
      ensures rmax == MaxOf(sorted, alpha, beta)
    {
      var timestamps := sorted + Padding(beta, U64_MAX);
      if |timestamps| < alpha {
        return None;
      }
      return Some(Middle(timestamps[|timestamps| - alpha..]));
    }

    /** The latest timestamp the client considers possible for `tx`; `None` where the split panics. */
    method MaxPossibleTs(tx: Transaction) returns (rmax: Option<Timestamp>)
      requires ViewInv(data.env, data.State())
      ensures rmax == RMax(data.State(), tx, alpha, beta)
    {
      var timestamps: seq<Timestamp> := [];
      ghost var order: seq<ReplicaId> := [];
      ghost var row := LatestTimestamps(data.State(), tx);
      var todo := data.env.replicas.Keys;
      while todo != {}
        invariant todo <= data.env.replicas.Keys
        invariant Listed(order, timestamps, todo, row)
        decreases todo
      {
        var r: ReplicaId :| r in todo;
        ListNext(order, timestamps, todo, row, r);
        todo := todo - {r};
        if tx in data.tsps {
          if r in data.tsps[tx] {
            timestamps := timestamps + [data.tsps[tx][r]];
            order := order + [r];
          }
        } else {
          timestamps := timestamps + [U64_MAX];
          order := order + [r];
        }
      }
      ListedAll(order, timestamps, row);
      rmax := UpperMiddle(Sort(timestamps));
    }

    /** Lists the held timestamps of a transaction with their stored votes, in iteration order. */
    method CollectRow(tx: Transaction) returns (timestamps: seq<Timestamp>, ctx: seq<Vote>, ghost order: seq<ReplicaId>)
      requires ViewInv(data.env, data.State()) && tx in data.tsps
      ensures Enumerates(order, data.tsps[tx].Keys)
      ensures timestamps == ValuesIn(order, data.tsps[tx])
      ensures CarryTimestamps(ctx, timestamps, data.tsVoteMsg)
    {
      timestamps, ctx, order := [], [], [];
      var row := data.tsps[tx];
      var todo := row.Keys;
      while todo != {}
        invariant todo <= row.Keys
        invariant forall r <- order :: r in row
        invariant Walks(order, todo, row.Keys)
        invariant timestamps == ValuesIn(order, row)
        invariant CarryTimestamps(ctx, timestamps, data.tsVoteMsg)
        decreases todo
      {
        var r: ReplicaId :| r in todo;
        WalkOn(order, todo, row.Keys, r);
        todo := todo - {r};
        assert HeldWithVote(data.tsps, data.mrt, data.tsVoteMsg, tx, r);
        CarryOn(ctx, timestamps, data.tsVoteMsg, row[r]);
        timestamps, ctx := timestamps + [row[r]], ctx + [Lookup(data.tsVoteMsg, row[r])];
        order := order + [r];
      }
    }

    /** The record of one transaction; `None` where the upper bound panics. */
    method BuildRecord(tx: Transaction) returns (rec: Option<TxRecord>)
      requires ViewInv(data.env, data.State()) && tx in data.tsps
      ensures rec.None? <==> Panics(data.State(), tx, alpha, beta)
      ensures rec.Some? ==> rec.value.tx == tx && RecordOf(rec.value, data.State(), alpha, beta)
    {
      var rmin := MinPossibleTs(tx);
      var rmax := MaxPossibleTs(tx);
      if rmax.None? {
        return None;
      }
      var timestamps, ctx, order := CollectRow(tx);
      rec := Some(TxRecord(tx, rmin, rmax.value, Some(Middle(timestamps)), ctx));
    }

    /** One record per known transaction, in some order. */
    method CollectRecords() returns (t: Option<seq<TxRecord>>)
      requires ViewInv(data.env, data.State())
      ensures t.None? <==> exists tx :: Panics(data.State(), tx, alpha, beta)
      ensures t.Some? ==> EachOnce(t.value, data.tsps.Keys)
      ensures t.Some? ==> RecordsOf(t.value, data.State(), alpha, beta)
    {
      var records: seq<TxRecord> := [];
      var todo := data.tsps.Keys;
      while todo != {}
        invariant Collected(records, todo, data.State(), alpha, beta)
        decreases todo
      {
        var tx :| tx in todo;
        var rec := BuildRecord(tx);
        if rec.None? {
          return None;
        }
        CollectOneMore(records, todo, data.State(), alpha, beta, rec.value);
        records, todo := records + [rec.value], todo - {tx};
      }
      assert data.tsps.Keys - todo == data.tsps.Keys;
      t := Some(records);
    }

    /** Reads the whole view at one moment; `None` where building some record panics. */
    method Read() returns (reply: Option<PodData>)
      requires ViewInv(data.env, data.State())
      ensures reply.None? <==> exists tx :: Panics(data.State(), tx, alpha, beta)
      ensures reply.Some? ==> ReplyOf(reply.value, data.State(), alpha, beta)
    {
      var t := CollectRecords();
      if t.None? {
        return None;
      }
      var rperf := MinPossibleTsForNewTx();
      var cpp := CollectMostRecent();
      reply := Some(PodData(t.value, rperf, cpp));
    }

    /** The stored votes behind every replica's most recent timestamp. */
    method CollectMostRecent() returns (cpp: seq<Vote>)
      requires ViewInv(data.env, data.State())
      ensures exists order :: Enumerates(order, data.mrt.Keys) && CarryTimestamps(cpp, ValuesIn(order, data.mrt), data.tsVoteMsg)
    {
      cpp := [];
      ghost var order: seq<ReplicaId> := [];
      ghost var timestamps: seq<Timestamp> := [];
      var mrt := data.mrt;
      var todo := mrt.Keys;
      while todo != {}
        invariant todo <= mrt.Keys
        invariant forall r <- order :: r in mrt
        invariant Walks(order, todo, mrt.Keys)
        invariant timestamps == ValuesIn(order, mrt)
        invariant CarryTimestamps(cpp, timestamps, data.tsVoteMsg)
        decreases todo
      {
        var r: ReplicaId :| r in todo;
        WalkOn(order, todo, mrt.Keys, r);
        todo := todo - {r};
        CarryOn(cpp, timestamps, data.tsVoteMsg, mrt[r]);
        cpp := cpp + [Lookup(data.tsVoteMsg, mrt[r])];
        order, timestamps := order + [r], timestamps + [mrt[r]];
      }
    }
  }

  /** A read panics exactly when some known transaction has fewer than alpha - beta timestamps. */
  lemma ReadPanicsIff(env: Spec.Env, view: Spec.View, alpha: nat, beta: nat)
    requires ViewInv(env, view) && alpha >= 4 * beta + 1
    ensures (exists tx :: Panics(view, tx, alpha, beta))
       <==> (exists tx :: tx in view.tsps && |view.tsps[tx]| + beta < alpha)
  {
    forall tx | tx in view.tsps ensures Panics(view, tx, alpha, beta) <==> |view.tsps[tx]| + beta < alpha {
      MaxIndex(SortedValues(view.tsps[tx]), alpha, beta);
    }
  }

  /** Padding the sorted timestamps and sorting the padded ones agree, whatever the iteration orders of the two maps. */
  lemma BothPaddingsAgree(row: Row, beta: nat, order: seq<ReplicaId>, order': seq<ReplicaId>)
    requires Enumerates(order, row.Keys) && Enumerates(order', row.Keys)
    ensures Padding(beta, 0) + Sort(ValuesIn(order, row)) == Padding(beta, 0) + SortedValues(row)
    ensures Sort(Padding(beta, 0) + ValuesIn(order', row)) == Padding(beta, 0) + SortedValues(row)
  {
    PaddingCommutesWithSorting(ValuesIn(order', row), beta);
    IterationOrderIsIrrelevant(order, row);
    IterationOrderIsIrrelevant(order', row);
  }

  /** For a transaction the view does not know, both ways of computing the lower bound come to the same value. */
  lemma UnknownTransactionReadsLikeNew(view: Spec.View, tx: Transaction, alpha: nat, beta: nat, order: seq<ReplicaId>, order': seq<ReplicaId>)
    requires tx !in view.tsps && Enumerates(order, view.mrt.Keys) && Enumerates(order', view.mrt.Keys)
    ensures Middle(Take(Padding(beta, 0) + Sort(ValuesIn(order, view.mrt)), alpha)) == RMin(view, tx, alpha, beta)
    ensures Middle(Take(Sort(Padding(beta, 0) + ValuesIn(order', view.mrt)), alpha)) == RMin(view, tx, alpha, beta)
  {
    BothPaddingsAgree(view.mrt, beta, order, order');
  }

  /** And its upper bound is the largest timestamp there is. */
  lemma UnknownTransactionReadsMaximum(view: Spec.View, tx: Transaction, alpha: nat, beta: nat)
    requires tx !in view.tsps && alpha >= 4 * beta + 1 && |view.mrt| + beta >= alpha
    ensures RMax(view, tx, alpha, beta) == Some(U64_MAX)
  {
    assert LatestTimestamps(view, tx).Keys == view.mrt.Keys;
    MaximaReadMaximum(LatestTimestamps(view, tx), view.mrt, alpha, beta);
  }

  lemma MaximaReadMaximum(latest: Row, mrt: Row, alpha: nat, beta: nat)
    requires latest.Keys == mrt.Keys && forall r: ReplicaId :: r in latest ==> latest[r] == U64_MAX
    requires alpha >= 4 * beta + 1 && |mrt| + beta >= alpha
    ensures MaxOf(SortedValues(latest), alpha, beta) == Some(U64_MAX)
  {
    assert |latest| == |latest.Keys| == |mrt.Keys| == |mrt|;
    MaxIndex(SortedValues(latest), alpha, beta);
    assert Below(latest, U64_MAX) == {};
    AtLeastByCounting(latest, |latest| + beta - (alpha + 1) / 2, U64_MAX);
  }

  function TimestampsOf(votes: seq<Vote>): (timestamps: seq<Timestamp>)
    ensures |timestamps| == |votes| && forall i :: 0 <= i < |votes| ==> timestamps[i] == votes[i].timestamp
  {
    seq(|votes|, i requires 0 <= i < |votes| => votes[i].timestamp)
  }

  /** What a record reports can be computed again from the timestamps of its votes. */
  ghost predicate SupportedRecord(rec: TxRecord, alpha: nat, beta: nat) {
    var timestamps := TimestampsOf(rec.ctx);
    && rec.rmin == MinOf(Sort(timestamps), alpha, beta)
    && Some(rec.rmax) == MaxOf(Sort(timestamps), alpha, beta)
    && rec.rconf == Some(Middle(timestamps))
  }

  /** And `rperf` from those of `cpp`. */
  ghost predicate SupportedReply(data: PodData, alpha: nat, beta: nat) {
    && data.rperf == MinOf(Sort(TimestampsOf(data.cpp)), alpha, beta)
    && forall i :: 0 <= i < |data.t| ==> SupportedRecord(data.t[i], alpha, beta)
  }

  lemma CarriedTimestamps(votes: seq<Vote>, timestamps: seq<Timestamp>, msgs: map<Timestamp, Vote>)
    requires CarryTimestamps(votes, timestamps, msgs)
    ensures TimestampsOf(votes) == timestamps
  {
  }

  lemma RecordIsSupported(rec: TxRecord, view: Spec.View, alpha: nat, beta: nat)
    requires RecordOf(rec, view, alpha, beta)
    ensures SupportedRecord(rec, alpha, beta)
  {
    var row := view.tsps[rec.tx];
    var order :| Enumerates(order, row.Keys) && rec.rconf == Some(Middle(ValuesIn(order, row)))
              && CarryTimestamps(rec.ctx, ValuesIn(order, row), view.tsVoteMsg);
    CarriedTimestamps(rec.ctx, ValuesIn(order, row), view.tsVoteMsg);
    IterationOrderIsIrrelevant(order, row);
  }

  /** The votes of a reply support everything it reports, as far as their timestamps go. */
  lemma ReplyIsSupported(data: PodData, view: Spec.View, alpha: nat, beta: nat)
    requires ReplyOf(data, view, alpha, beta)
    ensures SupportedReply(data, alpha, beta)
  {
    var order :| Enumerates(order, view.mrt.Keys) && CarryTimestamps(data.cpp, ValuesIn(order, view.mrt), view.tsVoteMsg);
    CarriedTimestamps(data.cpp, ValuesIn(order, view.mrt), view.tsVoteMsg);
    IterationOrderIsIrrelevant(order, view.mrt);
    forall i | 0 <= i < |data.t| ensures SupportedRecord(data.t[i], alpha, beta) {
      RecordIsSupported(data.t[i], view, alpha, beta);
    }
  }

  lemma NoVotesToCarry(votes: seq<Vote>, timestamps: seq<Timestamp>)
    requires CarryTimestamps(votes, timestamps, map[])
    ensures forall v <- votes :: v == Vote(0, 0, 0, [], None)
  {
  }

  lemma NothingToRecord(t: seq<TxRecord>)
    requires EachOnce(t, {})
    ensures t == []
  {
    if t != [] {
      RecordIsListed(t, {}, 0);
    }
  }

  lemma RecordIsListed(t: seq<TxRecord>, txs: set<Transaction>, i: nat)
    requires EachOnce(t, txs) && i < |t|
    ensures t[i].tx in txs
  {
    assert HasRecord(t, t[i].tx);
  }

  /** Before any vote has been applied: no records, `rperf` 0, and for each replica a vote whose fields are all empty. */
  lemma FreshReply(env: Spec.Env, data: PodData, alpha: nat, beta: nat)
    requires ReplyOf(data, Spec.Initial(env), alpha, beta) && Params(alpha, beta, |env.replicas|)
    ensures data.t == [] && data.rperf == 0
    ensures |data.cpp| == |env.replicas| && forall v <- data.cpp :: v == Vote(0, 0, 0, [], None)
  {
    var view := Spec.Initial(env);
    var order :| Enumerates(order, view.mrt.Keys) && CarryTimestamps(data.cpp, ValuesIn(order, view.mrt), view.tsVoteMsg);
    NoVotesToCarry(data.cpp, ValuesIn(order, view.mrt));
    ValuesCount(order, view.mrt, 0);
    assert |view.mrt| == |view.mrt.Keys| == |env.replicas.Keys| == |env.replicas|;
    assert view.tsps.Keys == {};
    NothingToRecord(data.t);
    NobodyAboveZero(view.mrt, alpha, beta);
  }

  lemma NobodyAboveZero(mrt: Row, alpha: nat, beta: nat)
    requires Params(alpha, beta, |mrt|) && forall r: ReplicaId :: r in mrt ==> mrt[r] == 0
    ensures MinOf(SortedValues(mrt), alpha, beta) == 0
  {
    assert Below(mrt, 1) == mrt.Keys && |mrt.Keys| == |mrt|;
    MinByCounting(mrt, alpha, beta, 1);
  }

  /** The timestamp below which no new transaction can be confirmed never falls, over any run of the updater. */
  lemma RPerfNeverFalls(env: Spec.Env, earlier: seq<Vote>, later: seq<Vote>, alpha: nat, beta: nat)
    requires Params(alpha, beta, |env.replicas|)
    ensures RPerf(Spec.Run(env, earlier).view, alpha, beta) <= RPerf(Spec.Run(env, earlier + later).view, alpha, beta)
  {
    RunsOnlyGrow(env, earlier, later);
    RaisedMrtRaisesRPerf(Spec.Run(env, earlier).view.mrt, Spec.Run(env, earlier + later).view.mrt, alpha, beta);
  }

  lemma RaisedMrtRaisesRPerf(low: Row, high: Row, alpha: nat, beta: nat)
    requires low.Keys == high.Keys && alpha >= 4 * beta + 1 && |low| >= alpha + beta
    requires forall r: ReplicaId :: r in low ==> low[r] <= high[r]
    ensures MinOf(SortedValues(low), alpha, beta) <= MinOf(SortedValues(high), alpha, beta)
  {
    RaisedByCounting(low, high, alpha, beta, MinOf(SortedValues(low), alpha, beta));
  }

  lemma RaisedByCounting(low: Row, high: Row, alpha: nat, beta: nat, x: nat)
    requires low.Keys == high.Keys && alpha >= 4 * beta + 1 && |low| >= alpha + beta
    requires forall r: ReplicaId :: r in low ==> low[r] <= high[r]
    requires x <= MinOf(SortedValues(low), alpha, beta)
    ensures x <= MinOf(SortedValues(high), alpha, beta)
  {
    assert |low| == |low.Keys| == |high.Keys| == |high|;
    MinByCounting(low, alpha, beta, x);
    MinByCounting(high, alpha, beta, x);
    SubsetSize(Below(high, x), Below(low, x));
  }
}
