/** Whose votes a reply carries. The evidence store is keyed by timestamp alone, so in general only timestamps are right. */
module Attribution {
  import opened Types
  import opened OrderStatistics
  import opened ClientApi
  import opened Evidence
  import opened ReadBounds
  import Reads = ReadInterleaving
  import Spec = ClientView

  /** The vote listed at each position is by the replica listed there, and about `tx` if one is given. */
  ghost predicate OwnVotes(votes: seq<Vote>, order: seq<ReplicaId>, tx: Option<Transaction>) {
    |votes| == |order| && forall i :: 0 <= i < |order| ==> IsBy(votes[i], order[i], tx)
  }

  /**
   The votes attached to a record are the replicas' own votes for its transaction if and only if no held timestamp
   was overtaken by another vote that carries it. In general only the timestamps are right.
   */
  lemma RecordVotesAreOwnIff(env: Spec.Env, log: seq<Vote>, view: Spec.View, tx: Transaction, order: seq<ReplicaId>, ctx: seq<Vote>)
    requires Applicable(env, log) && SameMaps(view, ProcessAll(env, log)) && tx in view.tsps
    requires Enumerates(order, view.tsps[tx].Keys) && CarryTimestamps(ctx, ValuesIn(order, view.tsps[tx]), view.tsVoteMsg)
    ensures OwnVotes(ctx, order, Some(tx)) <==>
            forall r: ReplicaId :: r in view.tsps[tx] ==> !Overtaken(log, r, Some(tx), view.tsps[tx][r])
  {
    var row := view.tsps[tx];
    forall i | 0 <= i < |order| ensures IsBy(ctx[i], order[i], Some(tx)) <==> !Overtaken(log, order[i], Some(tx), row[order[i]]) {
      ProcessAllKeepsInv(env, log);
      HeldVoteIsOwnIff(env, log, order[i], tx);
    }
    if forall r: ReplicaId :: r in row ==> !Overtaken(log, r, Some(tx), row[r]) {
      assert OwnVotes(ctx, order, Some(tx));
    }
  }

  /** The same for the votes behind the most recent timestamps, apart from those still 0. */
  ghost predicate OwnRecentVotes(votes: seq<Vote>, order: seq<ReplicaId>, mrt: Row) {
    |votes| == |order| && forall i :: 0 <= i < |order| && order[i] in mrt && mrt[order[i]] != 0 ==> IsBy(votes[i], order[i], None)
  }

  lemma RecentVotesAreOwnIff(env: Spec.Env, log: seq<Vote>, view: Spec.View, order: seq<ReplicaId>, cpp: seq<Vote>)
    requires Applicable(env, log) && SameMaps(view, ProcessAll(env, log))
    requires Enumerates(order, view.mrt.Keys) && CarryTimestamps(cpp, ValuesIn(order, view.mrt), view.tsVoteMsg)
    ensures OwnRecentVotes(cpp, order, view.mrt) <==>
            forall r: ReplicaId :: r in view.mrt && view.mrt[r] != 0 ==> !Overtaken(log, r, None, view.mrt[r])
  {
    forall i | 0 <= i < |order| && view.mrt[order[i]] != 0
      ensures IsBy(cpp[i], order[i], None) <==> !Overtaken(log, order[i], None, view.mrt[order[i]])
    {
      RecentVoteIsOwnIff(env, log, order[i]);
    }
    if forall r: ReplicaId :: r in view.mrt && view.mrt[r] != 0 ==> !Overtaken(log, r, None, view.mrt[r]) {
      assert OwnRecentVotes(cpp, order, view.mrt);
    }
  }

  // --- For the views of runs and for replies ---

  /** After any run, for a read of the view in whatever order it walks over the row. */
  lemma RunRecordVotesAreOwnIff(env: Spec.Env, arrivals: seq<Vote>, tx: Transaction, order: seq<ReplicaId>, ctx: seq<Vote>)
    requires var view := Spec.Run(env, arrivals).view;
             && tx in view.tsps && Enumerates(order, view.tsps[tx].Keys)
             && CarryTimestamps(ctx, ValuesIn(order, view.tsps[tx]), view.tsVoteMsg)
    ensures var view := Spec.Run(env, arrivals).view;
            OwnVotes(ctx, order, Some(tx)) <==>
            forall r: ReplicaId :: r in view.tsps[tx] ==> !Overtaken(AppliedVotes(env, arrivals), r, Some(tx), view.tsps[tx][r])
  {
    RunIsProcessing(env, arrivals);
    AppliedAreApplicable(env, arrivals);
    RecordVotesAreOwnIff(env, AppliedVotes(env, arrivals), Spec.Run(env, arrivals).view, tx, order, ctx);
  }

  lemma RunRecentVotesAreOwnIff(env: Spec.Env, arrivals: seq<Vote>, order: seq<ReplicaId>, cpp: seq<Vote>)
    requires var view := Spec.Run(env, arrivals).view;
             Enumerates(order, view.mrt.Keys) && CarryTimestamps(cpp, ValuesIn(order, view.mrt), view.tsVoteMsg)
    ensures var view := Spec.Run(env, arrivals).view;
            OwnRecentVotes(cpp, order, view.mrt) <==>
            forall r: ReplicaId :: r in view.mrt && view.mrt[r] != 0 ==> !Overtaken(AppliedVotes(env, arrivals), r, None, view.mrt[r])
  {
    RunIsProcessing(env, arrivals);
    AppliedAreApplicable(env, arrivals);
    RecentVotesAreOwnIff(env, AppliedVotes(env, arrivals), Spec.Run(env, arrivals).view, order, cpp);
  }

  /** What a read that runs beside the updater replies: the votes noted until then, and the view they make. */
  ghost predicate ReplyAfter(c: Reads.Config, actions: seq<Reads.Action>, id: nat, log: seq<Vote>) {
    var s := Reads.Execute(c, actions);
    var reader := Reads.ReaderAt(s, id);
    reader.Replied? && reader.at <= |s.noted| && log == s.noted[..reader.at]
  }

  lemma ReplyIsOfLog(c: Reads.Config, actions: seq<Reads.Action>, id: nat, log: seq<Vote>)
    requires ReplyAfter(c, actions, id, log)
    ensures Applicable(c.env, log)
    ensures ReplyOf(Reads.ReaderAt(Reads.Execute(c, actions), id).data, ProcessAll(c.env, log), c.alpha, c.beta)
  {
    Reads.CompletedReadsAreAtomic(c, actions, id);
    var noted := Reads.Execute(c, actions).noted;
    assert forall v :: v in log ==> v in noted;
  }

  /** The votes of record `i` of a reply, in the order in which the read walked over the row. */
  lemma ReplyRecordVotesAreOwnIff(c: Reads.Config, actions: seq<Reads.Action>, id: nat, log: seq<Vote>, i: nat)
    returns (order: seq<ReplicaId>)
    requires ReplyAfter(c, actions, id, log) && i < |Reads.ReaderAt(Reads.Execute(c, actions), id).data.t|
    ensures var rec := Reads.ReaderAt(Reads.Execute(c, actions), id).data.t[i];
            var row := Spec.RowOf(ProcessAll(c.env, log), rec.tx);
            && Enumerates(order, row.Keys) && TimestampsOf(rec.ctx) == ValuesIn(order, row)
            && (OwnVotes(rec.ctx, order, Some(rec.tx)) <==>
                forall r: ReplicaId :: r in row ==> !Overtaken(log, r, Some(rec.tx), row[r]))
  {
    var rec, view := Reads.ReaderAt(Reads.Execute(c, actions), id).data.t[i], ProcessAll(c.env, log);
    ReplyIsOfLog(c, actions, id, log);
    Reads.RecordInReply(Reads.ReaderAt(Reads.Execute(c, actions), id).data, view, c.alpha, c.beta, i);
    order := RecordOrder(rec, view, c.alpha, c.beta);
    CarriedTimestamps(rec.ctx, ValuesIn(order, view.tsps[rec.tx]), view.tsVoteMsg);
    RecordVotesAreOwnIff(c.env, log, view, rec.tx, order, rec.ctx);
  }

  lemma RecordOrder(rec: TxRecord, view: Spec.View, alpha: nat, beta: nat) returns (order: seq<ReplicaId>)
    requires RecordOf(rec, view, alpha, beta)
    ensures Enumerates(order, view.tsps[rec.tx].Keys) && CarryTimestamps(rec.ctx, ValuesIn(order, view.tsps[rec.tx]), view.tsVoteMsg)
  {
    order :| Enumerates(order, view.tsps[rec.tx].Keys) && rec.rconf == Some(Middle(ValuesIn(order, view.tsps[rec.tx])))
          && CarryTimestamps(rec.ctx, ValuesIn(order, view.tsps[rec.tx]), view.tsVoteMsg);
  }

  /** And those of `cpp`. */
  lemma ReplyRecentVotesAreOwnIff(c: Reads.Config, actions: seq<Reads.Action>, id: nat, log: seq<Vote>)
    returns (order: seq<ReplicaId>)
    requires ReplyAfter(c, actions, id, log)
    ensures var data, mrt := Reads.ReaderAt(Reads.Execute(c, actions), id).data, ProcessAll(c.env, log).mrt;
            && Enumerates(order, mrt.Keys) && TimestampsOf(data.cpp) == ValuesIn(order, mrt)
            && (OwnRecentVotes(data.cpp, order, mrt) <==>
                forall r: ReplicaId :: r in mrt && mrt[r] != 0 ==> !Overtaken(log, r, None, mrt[r]))
  {
    var data, view := Reads.ReaderAt(Reads.Execute(c, actions), id).data, ProcessAll(c.env, log);
    ReplyIsOfLog(c, actions, id, log);
    order := ReplyOrder(data, view, c.alpha, c.beta);
    CarriedTimestamps(data.cpp, ValuesIn(order, view.mrt), view.tsVoteMsg);
    RecentVotesAreOwnIff(c.env, log, view, order, data.cpp);
  }

  lemma ReplyOrder(data: PodData, view: Spec.View, alpha: nat, beta: nat) returns (order: seq<ReplicaId>)
    requires ReplyOf(data, view, alpha, beta)
    ensures Enumerates(order, view.mrt.Keys) && CarryTimestamps(data.cpp, ValuesIn(order, view.mrt), view.tsVoteMsg)
  {
    order :| Enumerates(order, view.mrt.Keys) && CarryTimestamps(data.cpp, ValuesIn(order, view.mrt), view.tsVoteMsg);
  }
}
