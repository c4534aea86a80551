/**
 The votes that an updater applies, in the order in which it does: the view they make on their own, and whose vote
 stands behind each timestamp of that view.
 */
module Evidence {
  import opened Types
  import opened VoteFold
  import opened ClientView
  import opened ViewProperties
  import Buffer = ReorderBuffer

  /** One vote processed. The updater hands over only votes with a transaction, of known replicas. */
  function Process(view: View, v: Vote): (after: View)
    ensures after.nextsn == view.nextsn && after.backlog == view.backlog && after.mrt.Keys == view.mrt.Keys
  {
    if v.transaction.Some? && v.replicaId in view.mrt then
      ProcessVote(view, v.replicaId, v.transaction.value, v.timestamp, v)
    else view
  }

  /** The maps that processing the votes of `log` one after the other leaves behind. */
  function ProcessAll(env: Env, log: seq<Vote>): (view: View)
    ensures Wf(env, view)
  {
    if log == [] then Initial(env) else Process(ProcessAll(env, log[..|log| - 1]), log[|log| - 1])
  }

  lemma ProcessAllSnoc(env: Env, log: seq<Vote>, v: Vote)
    ensures ProcessAll(env, log + [v]) == Process(ProcessAll(env, log), v)
  {
    assert (log + [v])[..|log|] == log;
  }

  lemma {:induction false} ProcessAllKeepsInv(env: Env, log: seq<Vote>)
    ensures ViewInv(env, ProcessAll(env, log))
  {
    if log == [] {
    } else {
      var v := log[|log| - 1];
      ProcessAllKeepsInv(env, log[..|log| - 1]);
      if v.transaction.Some? && v.replicaId in env.replicas {
        ProcessVoteKeepsInv(env, ProcessAll(env, log[..|log| - 1]), v.replicaId, v.transaction.value, v.timestamp, v);
      }
    }
  }

  // --- What a run of the updater applies ---

  function DrainApplies(view: View, r: ReplicaId): seq<Vote>
    requires r in view.nextsn && r in view.mrt
    decreases |BacklogOf(view, r)|
  {
    var pending := BacklogOf(view, r);
    var next := view.nextsn[r];
    if next in pending then
      var removed := view.(backlog := view.backlog[r := pending - {next}]);
      [pending[next]] + DrainApplies(TakeNext(removed, r, pending[next]), r)
    else []
  }

  function AdmitApplies(view: View, v: Vote): seq<Vote>
    requires v.replicaId in view.nextsn && v.replicaId in view.mrt
  {
    if v.sequenceNumber == view.nextsn[v.replicaId] then [v] + DrainApplies(TakeNext(view, v.replicaId, v), v.replicaId)
    else []
  }

  /** The votes that a run hands to `process_vote`, in order. */
  function AppliedVotes(env: Env, arrivals: seq<Vote>): seq<Vote> {
    if arrivals == [] then []
    else
      var prefix, v := arrivals[..|arrivals| - 1], arrivals[|arrivals| - 1];
      var before := Run(env, prefix);
      AppliedVotes(env, prefix) + if !before.bailed && Accepts(env, v) then AdmitApplies(before.view, v) else []
  }

  /** The maps that processing changes are the same. */
  ghost predicate SameMaps(a: View, b: View) {
    a.mrt == b.mrt && a.tsps == b.tsps && a.tsVoteMsg == b.tsVoteMsg
  }

  /** What waits in the backlog of `r` are votes of `r`, filed under their numbers. */
  ghost predicate OwnBacklog(view: View, r: ReplicaId) {
    forall k: SequenceNumber :: k in BacklogOf(view, r) ==>
      var v := BacklogOf(view, r)[k];
      v.transaction.Some? && v.replicaId == r && v.sequenceNumber == k
  }

  lemma RunOwnsBacklog(env: Env, arrivals: seq<Vote>, r: ReplicaId)
    requires r in env.replicas
    ensures OwnBacklog(Run(env, arrivals).view, r)
    ensures forall k: SequenceNumber :: k in BacklogOf(Run(env, arrivals).view, r) ==>
              BacklogOf(Run(env, arrivals).view, r)[k] in AcceptedFrom(env, arrivals, r)
  {
    ViewIsReorderBufferPerReplica(env, arrivals, r);
    Buffer.BufferHoldsTheGap(AcceptedFrom(env, arrivals, r));
    AcceptedAreAccepted(env, arrivals, r);
  }

  /** The view after the next vote is taken out of the backlog and applied. */
  function AfterNext(view: View, r: ReplicaId): (after: View)
    requires r in view.nextsn && r in view.mrt && view.nextsn[r] in BacklogOf(view, r)
    ensures r in after.nextsn && r in after.mrt
    ensures after.nextsn == view.nextsn[r := view.nextsn[r] + 1]
    ensures after.backlog == view.backlog[r := BacklogOf(view, r) - {view.nextsn[r]}]
  {
    var pending, next := BacklogOf(view, r), view.nextsn[r];
    TakeNext(view.(backlog := view.backlog[r := pending - {next}]), r, pending[next])
  }

  lemma NextLeavesBacklog(view: View, r: ReplicaId)
    requires r in view.nextsn && r in view.mrt && view.nextsn[r] in BacklogOf(view, r)
    ensures BacklogOf(AfterNext(view, r), r) == BacklogOf(view, r) - {view.nextsn[r]}
  {
  }

  lemma DrainTakesNext(view: View, r: ReplicaId)
    requires r in view.nextsn && r in view.mrt && view.nextsn[r] in BacklogOf(view, r)
    ensures DrainBacklog(view, r) == DrainBacklog(AfterNext(view, r), r)
  {
  }

  lemma DrainAppliesNext(view: View, r: ReplicaId)
    requires r in view.nextsn && r in view.mrt && view.nextsn[r] in BacklogOf(view, r)
    ensures DrainApplies(view, r) == [BacklogOf(view, r)[view.nextsn[r]]] + DrainApplies(AfterNext(view, r), r)
  {
  }

  lemma ProcessingSameMaps(a: View, b: View, r: ReplicaId, tx: Transaction, ts: Timestamp, v: Vote)
    requires r in a.mrt && r in b.mrt && SameMaps(a, b)
    ensures SameMaps(ProcessVote(a, r, tx, ts, v), ProcessVote(b, r, tx, ts, v))
  {
    var moved := a.(nextsn := b.nextsn, backlog := b.backlog);
    assert moved == b;
    var msgs, raised := RecordVote(a.tsVoteMsg, ts, v), a.mrt[r := ts];
    if ts < a.mrt[r] {
      assert ProcessVote(a, r, tx, ts, v) == a.(tsVoteMsg := msgs);
      assert ProcessVote(moved, r, tx, ts, v) == moved.(tsVoteMsg := msgs);
    } else if IsHeartbeat(tx) {
      assert ProcessVote(a, r, tx, ts, v) == a.(tsVoteMsg := msgs, mrt := raised);
      assert ProcessVote(moved, r, tx, ts, v) == moved.(tsVoteMsg := msgs, mrt := raised);
    } else {
      var tsps := RecordTimestamp(a.tsps, tx, r, ts);
      assert ProcessVote(a, r, tx, ts, v) == a.(tsVoteMsg := msgs, mrt := raised, tsps := tsps);
      assert ProcessVote(moved, r, tx, ts, v) == moved.(tsVoteMsg := msgs, mrt := raised, tsps := tsps);
    }
  }

  lemma TakeNextIsProcessing(view: View, r: ReplicaId, v: Vote, same: View)
    requires r in view.nextsn && r in view.mrt && v.transaction.Some? && v.replicaId == r && SameMaps(view, same)
    ensures SameMaps(TakeNext(view, r, v), Process(same, v)) && BacklogOf(TakeNext(view, r, v), r) == BacklogOf(view, r)
  {
    ProcessingSameMaps(Advance(view, r), same, r, v.transaction.value, v.timestamp, v);
  }

  lemma NextIsProcessing(env: Env, view: View, r: ReplicaId, log: seq<Vote>)
    requires r in view.nextsn && r in view.mrt && view.nextsn[r] in BacklogOf(view, r)
    requires OwnBacklog(view, r) && SameMaps(view, ProcessAll(env, log))
    ensures OwnBacklog(AfterNext(view, r), r)
    ensures SameMaps(AfterNext(view, r), ProcessAll(env, log + [BacklogOf(view, r)[view.nextsn[r]]]))
  {
    var pending, next := BacklogOf(view, r), view.nextsn[r];
    NextLeavesBacklog(view, r);
    TakeNextIsProcessing(view.(backlog := view.backlog[r := pending - {next}]), r, pending[next], ProcessAll(env, log));
    ProcessAllSnoc(env, log, pending[next]);
  }

  lemma Reassociate(log: seq<Vote>, v: Vote, rest: seq<Vote>)
    ensures log + [v] + rest == log + ([v] + rest)
  {
  }

  lemma {:induction false} DrainIsProcessing(env: Env, view: View, r: ReplicaId, log: seq<Vote>)
    requires r in view.nextsn && r in view.mrt && OwnBacklog(view, r) && SameMaps(view, ProcessAll(env, log))
    ensures SameMaps(DrainBacklog(view, r), ProcessAll(env, log + DrainApplies(view, r)))
    decreases |BacklogOf(view, r)|
  {
    if view.nextsn[r] in BacklogOf(view, r) {
      var v := BacklogOf(view, r)[view.nextsn[r]];
      NextLeavesBacklog(view, r);
      DrainTakesNext(view, r);
      DrainAppliesNext(view, r);
      NextIsProcessing(env, view, r, log);
      DrainIsProcessing(env, AfterNext(view, r), r, log + [v]);
      Reassociate(log, v, DrainApplies(AfterNext(view, r), r));
    } else {
      assert log + [] == log;
    }
  }

  lemma AdmitIsProcessing(env: Env, view: View, v: Vote, log: seq<Vote>)
    requires v.replicaId in view.nextsn && v.replicaId in view.mrt && v.transaction.Some?
    requires OwnBacklog(view, v.replicaId) && SameMaps(view, ProcessAll(env, log))
    ensures SameMaps(Admit(view, v), ProcessAll(env, log + AdmitApplies(view, v)))
  {
    var r := v.replicaId;
    if v.sequenceNumber == view.nextsn[r] {
      TakeNextIsProcessing(view, r, v, ProcessAll(env, log));
      ProcessAllSnoc(env, log, v);
      var after := TakeNext(view, r, v);
      assert OwnBacklog(after, r);
      DrainIsProcessing(env, after, r, log + [v]);
      Reassociate(log, v, DrainApplies(after, r));
    } else {
      assert log + [] == log;
    }
  }

  /** The receive loop with its reorder buffer changes the maps exactly as processing its applied votes in turn does. */
  lemma {:induction false} RunIsProcessing(env: Env, arrivals: seq<Vote>)
    ensures SameMaps(Run(env, arrivals).view, ProcessAll(env, AppliedVotes(env, arrivals)))
  {
    if arrivals == [] {
    } else {
      var prefix, v := arrivals[..|arrivals| - 1], arrivals[|arrivals| - 1];
      var log := AppliedVotes(env, prefix);
      RunIsProcessing(env, prefix);
      if !Run(env, prefix).bailed && Accepts(env, v) {
        RunOwnsBacklog(env, prefix, v.replicaId);
        AdmitIsProcessing(env, Run(env, prefix).view, v, log);
      } else {
        assert log + [] == log;
      }
    }
  }

  // --- Each replica's votes are applied in order ---

  function FromReplica(vs: seq<Vote>, r: ReplicaId): seq<Vote> {
    if vs == [] then []
    else
      var before, v := FromReplica(vs[..|vs| - 1], r), vs[|vs| - 1];
      if v.replicaId == r then before + [v] else before
  }

  lemma {:induction false} FromReplicaConcat(a: seq<Vote>, b: seq<Vote>, r: ReplicaId)
    ensures FromReplica(a + b, r) == FromReplica(a, r) + FromReplica(b, r)
  {
    if b == [] {
      assert a + b == a;
    } else {
      FromReplicaConcat(a, b[..|b| - 1], r);
      assert (a + b)[..|a + b| - 1] == a + b[..|b| - 1];
    }
  }

  lemma {:induction false} FromOneReplica(vs: seq<Vote>, q: ReplicaId, r: ReplicaId)
    requires forall v <- vs :: v.replicaId == q
    ensures FromReplica(vs, r) == if q == r then vs else []
  {
    if vs != [] {
      FromOneReplica(vs[..|vs| - 1], q, r);
    }
  }

  /** Consecutive votes of `r` from number `next` on. */
  ghost predicate Consecutive(log: seq<Vote>, r: ReplicaId, next: nat) {
    forall i :: 0 <= i < |log| ==> log[i].replicaId == r && log[i].sequenceNumber == next + i
  }

  lemma ConsecutiveFrom(v: Vote, log: seq<Vote>, r: ReplicaId, next: nat)
    requires Consecutive(log, r, next + 1) && v.replicaId == r && v.sequenceNumber == next
    ensures Consecutive([v] + log, r, next)
  {
  }

  /** Draining applies consecutive votes of the replica, from the one expected on. */
  lemma {:induction false} DrainAppliesInOrder(view: View, r: ReplicaId)
    requires r in view.nextsn && r in view.mrt && OwnBacklog(view, r)
    ensures var log := DrainApplies(view, r);
            && DrainBacklog(view, r).nextsn == view.nextsn[r := view.nextsn[r] + |log|]
            && Consecutive(log, r, view.nextsn[r])
            && forall v :: v in log ==> v in BacklogOf(view, r).Values
    decreases |BacklogOf(view, r)|
  {
    if view.nextsn[r] in BacklogOf(view, r) {
      var v, after := BacklogOf(view, r)[view.nextsn[r]], AfterNext(view, r);
      NextLeavesBacklog(view, r);
      DrainTakesNext(view, r);
      DrainAppliesNext(view, r);
      DrainAppliesInOrder(after, r);
      ConsecutiveFrom(v, DrainApplies(after, r), r, view.nextsn[r]);
      assert forall u :: u in BacklogOf(after, r).Values ==> u in BacklogOf(view, r).Values;
    }
  }

  /** The votes that one arrival makes the updater apply are the expected one and those it unblocks. */
  lemma AdmitAppliesInOrder(view: View, v: Vote)
    requires v.replicaId in view.nextsn && v.replicaId in view.mrt && OwnBacklog(view, v.replicaId)
    ensures var r, log := v.replicaId, AdmitApplies(view, v);
            && Admit(view, v).nextsn == view.nextsn[r := view.nextsn[r] + |log|]
            && Consecutive(log, r, view.nextsn[r])
            && forall u :: u in log ==> u == v || u in BacklogOf(view, r).Values
  {
    var r := v.replicaId;
    if v.sequenceNumber == view.nextsn[r] {
      var after := TakeNext(view, r, v);
      assert BacklogOf(after, r) == BacklogOf(view, r);
      DrainAppliesInOrder(after, r);
      ConsecutiveFrom(v, DrainApplies(after, r), r, view.nextsn[r]);
    }
  }

  /** Vote `i` of the replica is its vote number `i`, and was accepted. */
  ghost predicate InOrderFrom(vs: seq<Vote>, accepted: seq<Vote>) {
    forall i :: 0 <= i < |vs| ==> vs[i].sequenceNumber == i && vs[i] in accepted
  }

  lemma InOrderConcat(vs: seq<Vote>, more: seq<Vote>, r: ReplicaId, accepted: seq<Vote>, accepted': seq<Vote>)
    requires InOrderFrom(vs, accepted) && Consecutive(more, r, |vs|)
    requires (forall u :: u in accepted ==> u in accepted') && (forall u :: u in more ==> u in accepted')
    ensures InOrderFrom(vs + more, accepted')
  {
  }

  lemma AdmitAppliesAccepted(env: Env, prefix: seq<Vote>, v: Vote)
    requires v.replicaId in env.replicas
    ensures forall u :: u in AdmitApplies(Run(env, prefix).view, v) ==> u == v || u in AcceptedFrom(env, prefix, v.replicaId)
  {
    RunOwnsBacklog(env, prefix, v.replicaId);
    AdmitAppliesInOrder(Run(env, prefix).view, v);
  }

  /** So far the votes of `r` were applied in order, and as many as its counter says. */
  ghost predicate InStep(env: Env, arrivals: seq<Vote>, log: seq<Vote>, r: ReplicaId)
    requires r in env.replicas
  {
    && |FromReplica(log, r)| == Run(env, arrivals).view.nextsn[r]
    && InOrderFrom(FromReplica(log, r), AcceptedFrom(env, arrivals, r))
  }

  lemma OwnVoteIsAccepted(env: Env, prefix: seq<Vote>, v: Vote)
    requires !Run(env, prefix).bailed && Accepts(env, v)
    ensures AcceptedFrom(env, prefix + [v], v.replicaId) == AcceptedFrom(env, prefix, v.replicaId) + [v]
    ensures Run(env, prefix + [v]).view == Admit(Run(env, prefix).view, v)
  {
    assert (prefix + [v])[..|prefix|] == prefix;
  }

  lemma OwnVoteKeepsStep(env: Env, prefix: seq<Vote>, v: Vote, log: seq<Vote>)
    requires !Run(env, prefix).bailed && Accepts(env, v) && InStep(env, prefix, log, v.replicaId)
    ensures InStep(env, prefix + [v], log + AdmitApplies(Run(env, prefix).view, v), v.replicaId)
  {
    var view, r := Run(env, prefix).view, v.replicaId;
    var more, accepted := AdmitApplies(view, v), AcceptedFrom(env, prefix, r);
    OwnVoteIsAccepted(env, prefix, v);
    RunOwnsBacklog(env, prefix, r);
    AdmitAppliesInOrder(view, v);
    AdmitAppliesAccepted(env, prefix, v);
    FromReplicaConcat(log, more, r);
    FromOneReplica(more, r, r);
    InOrderConcat(FromReplica(log, r), more, r, accepted, accepted + [v]);
  }

  lemma OtherVoteKeepsStep(env: Env, prefix: seq<Vote>, v: Vote, log: seq<Vote>, r: ReplicaId)
    requires !Run(env, prefix).bailed && Accepts(env, v) && r in env.replicas && r != v.replicaId && InStep(env, prefix, log, r)
    ensures InStep(env, prefix + [v], log + AdmitApplies(Run(env, prefix).view, v), r)
  {
    var view := Run(env, prefix).view;
    var more := AdmitApplies(view, v);
    assert (prefix + [v])[..|prefix|] == prefix;
    RunOwnsBacklog(env, prefix, v.replicaId);
    AdmitAppliesInOrder(view, v);
    FromReplicaConcat(log, more, r);
    FromOneReplica(more, v.replicaId, r);
    assert FromReplica(log, r) + [] == FromReplica(log, r);
  }

  /** Whatever the arrival order, the votes of one replica are applied as its votes 0 .. nextsn-1, in this order. */
  lemma {:induction false} AppliedInOrder(env: Env, arrivals: seq<Vote>, r: ReplicaId)
    requires r in env.replicas
    ensures InStep(env, arrivals, AppliedVotes(env, arrivals), r)
  {
    if arrivals == [] {
    } else {
      var prefix, v := arrivals[..|arrivals| - 1], arrivals[|arrivals| - 1];
      assert prefix + [v] == arrivals;
      AppliedInOrder(env, prefix, r);
      if !Run(env, prefix).bailed && Accepts(env, v) {
        if v.replicaId == r {
          OwnVoteKeepsStep(env, prefix, v, AppliedVotes(env, prefix));
        } else {
          OtherVoteKeepsStep(env, prefix, v, AppliedVotes(env, prefix), r);
        }
      } else {
        assert AppliedVotes(env, prefix) + [] == AppliedVotes(env, prefix);
      }
    }
  }

  /** A replica that equivocates is taken at its latest word: each vote is applied as last received under its number. */
  lemma LastReceivedIsApplied(env: Env, prefix: seq<Vote>, v: Vote, u: Vote)
    requires !Run(env, prefix).bailed && Accepts(env, v) && u in AdmitApplies(Run(env, prefix).view, v)
    ensures Buffer.LastUnder(AcceptedFrom(env, prefix + [v], v.replicaId), u.sequenceNumber, u)
  {
    var view, r, accepted := Run(env, prefix).view, v.replicaId, AcceptedFrom(env, prefix, v.replicaId);
    OwnVoteIsAccepted(env, prefix, v);
    RunOwnsBacklog(env, prefix, r);
    AdmitAppliesInOrder(view, v);
    ViewIsReorderBufferPerReplica(env, prefix, r);
    Buffer.BacklogHoldsLast(accepted);
    Buffer.BufferHoldsTheGap(accepted);
    Buffer.LastSnoc(accepted, v);
  }

  /** A replica's column is made by its own votes alone, applied in order. */
  lemma {:induction false} ProcessedColumn(env: Env, log: seq<Vote>, r: ReplicaId, str: Stream)
    requires r in env.replicas && Carries(FromReplica(log, r), str)
    ensures ColumnOf(ProcessAll(env, log), r) == Fold(str, |FromReplica(log, r)|)
  {
    if log == [] {
    } else {
      var prefix, v := log[..|log| - 1], log[|log| - 1];
      CarriesBefore(log, r, str);
      ProcessedColumn(env, prefix, r, str);
      if v.transaction.Some? && v.replicaId in env.replicas {
        ProcessVoteOnColumns(ProcessAll(env, prefix), v.replicaId, v.transaction.value, v.timestamp, v, r);
      }
    }
  }

  /** Vote `i` carries what the stream says. */
  ghost predicate Carries(vs: seq<Vote>, str: Stream) {
    forall i :: 0 <= i < |vs| ==> vs[i].transaction.Some? && ContentOf(vs[i]) == str(i)
  }

  lemma CarriesBefore(log: seq<Vote>, r: ReplicaId, str: Stream)
    requires log != [] && Carries(FromReplica(log, r), str)
    ensures Carries(FromReplica(log[..|log| - 1], r), str)
    ensures var v, before := log[|log| - 1], FromReplica(log[..|log| - 1], r);
            if v.replicaId == r then
              FromReplica(log, r) == before + [v] && v.transaction.Some? && ContentOf(v) == str(|before|)
            else FromReplica(log, r) == before
  {
    var v, before := log[|log| - 1], FromReplica(log[..|log| - 1], r);
    if v.replicaId == r {
      assert FromReplica(log, r)[..|before|] == before;
      assert FromReplica(log, r)[|before|] == v;
    }
  }

  /** The column of `r` is an initial part of the stream, applied in order. */
  ghost predicate Follows(view: View, r: ReplicaId, str: Stream) {
    r in view.mrt && exists n: nat :: ColumnOf(view, r) == Fold(str, n)
  }

  /** At every moment between two applied votes of a run, the column of a replica that does not equivocate follows its stream. */
  lemma PartOfRunFollows(env: Env, arrivals: seq<Vote>, log: seq<Vote>, r: ReplicaId, str: Stream)
    requires r in env.replicas && Honest(env, arrivals, r, str) && log <= AppliedVotes(env, arrivals)
    ensures Follows(ProcessAll(env, log), r, str)
  {
    var all := AppliedVotes(env, arrivals);
    AppliedInOrder(env, arrivals, r);
    FromReplicaConcat(log, all[|log|..], r);
    assert log + all[|log|..] == all;
    assert FromReplica(log, r) <= FromReplica(all, r);
    ProcessedColumn(env, log, r, str);
  }

  // --- Whose vote stands behind a timestamp ---

  ghost predicate Applicable(env: Env, log: seq<Vote>) {
    forall v <- log :: v.transaction.Some? && v.replicaId in env.replicas
  }

  lemma {:induction false} AppliedAreApplicable(env: Env, arrivals: seq<Vote>)
    ensures Applicable(env, AppliedVotes(env, arrivals))
  {
    if arrivals == [] {
    } else {
      var prefix, v := arrivals[..|arrivals| - 1], arrivals[|arrivals| - 1];
      AppliedAreApplicable(env, prefix);
      if !Run(env, prefix).bailed && Accepts(env, v) {
        RunOwnsBacklog(env, prefix, v.replicaId);
        AdmitAppliesInOrder(Run(env, prefix).view, v);
      }
    }
  }

  /** The first vote of `log` that carries `ts`. */
  ghost predicate IsFirstWith(log: seq<Vote>, ts: Timestamp, v: Vote) {
    exists k :: 0 <= k < |log| && FirstAt(log, ts, k) && log[k] == v
  }

  ghost predicate FirstAt(log: seq<Vote>, ts: Timestamp, k: nat) {
    k < |log| && log[k].timestamp == ts && forall i :: 0 <= i < k ==> log[i].timestamp != ts
  }

  lemma FirstSnoc(log: seq<Vote>, v: Vote, ts: Timestamp)
    ensures forall u :: IsFirstWith(log, ts, u) ==> IsFirstWith(log + [v], ts, u)
    ensures v.timestamp == ts && (forall u <- log :: u.timestamp != ts) ==> IsFirstWith(log + [v], ts, v)
  {
    var all := log + [v];
    forall u | IsFirstWith(log, ts, u) ensures IsFirstWith(all, ts, u) {
      var k :| 0 <= k < |log| && FirstAt(log, ts, k) && log[k] == u;
      assert FirstAt(all, ts, k) && all[k] == u;
    }
    if v.timestamp == ts && (forall u <- log :: u.timestamp != ts) {
      assert FirstAt(all, ts, |log|) && all[|log|] == v;
    }
  }

  lemma ProcessStores(view: View, v: Vote)
    requires v.transaction.Some? && v.replicaId in view.mrt
    ensures Process(view, v).tsVoteMsg == RecordVote(view.tsVoteMsg, v.timestamp, v)
  {
  }

  /** The stored vote for a timestamp is the first one applied that carries it. */
  lemma {:induction false} StoredIsFirst(env: Env, log: seq<Vote>, ts: Timestamp)
    requires Applicable(env, log)
    ensures ts in ProcessAll(env, log).tsVoteMsg <==> exists v :: v in log && v.timestamp == ts
    ensures ts in ProcessAll(env, log).tsVoteMsg ==> IsFirstWith(log, ts, ProcessAll(env, log).tsVoteMsg[ts])
  {
    if log == [] {
    } else {
      var prefix, v := log[..|log| - 1], log[|log| - 1];
      assert log == prefix + [v];
      StoredIsFirst(env, prefix, ts);
      ProcessAllSnoc(env, prefix, v);
      ProcessStores(ProcessAll(env, prefix), v);
      FirstSnoc(prefix, v, ts);
    }
  }

  /** A vote of replica `r`, and about a certain transaction if one is given. */
  predicate IsBy(v: Vote, r: ReplicaId, tx: Option<Transaction>) {
    v.replicaId == r && (tx.Some? ==> v.transaction == tx)
  }

  ghost predicate AppliedWith(log: seq<Vote>, r: ReplicaId, tx: Option<Transaction>, ts: Timestamp) {
    exists v :: v in log && IsBy(v, r, tx) && v.timestamp == ts
  }

  lemma AppliedSnoc(log: seq<Vote>, v: Vote, r: ReplicaId, tx: Option<Transaction>, ts: Timestamp)
    ensures AppliedWith(log + [v], r, tx, ts) <==> AppliedWith(log, r, tx, ts) || (IsBy(v, r, tx) && v.timestamp == ts)
  {
    assert v in log + [v] && forall u :: u in log ==> u in log + [v];
  }

  /** Where the timestamps that one vote changes come from. */
  lemma ProcessSets(view: View, v: Vote, r: ReplicaId, tx: Transaction)
    requires v.transaction.Some? && v.replicaId in view.mrt && r in view.mrt
    ensures var after := Process(view, v);
            && (r in RowOf(after, tx) ==>
                  || (r in RowOf(view, tx) && RowOf(after, tx)[r] == RowOf(view, tx)[r])
                  || (IsBy(v, r, Some(tx)) && v.timestamp == RowOf(after, tx)[r]))
            && (after.mrt[r] == view.mrt[r] || (IsBy(v, r, None) && v.timestamp == after.mrt[r]))
  {
  }

  /** Held and most recent timestamps come from applied votes of the replica they are listed for. */
  lemma {:induction false} TimestampsWereApplied(env: Env, log: seq<Vote>, r: ReplicaId, tx: Transaction)
    requires Applicable(env, log) && r in env.replicas
    ensures var view := ProcessAll(env, log);
            && (r in RowOf(view, tx) ==> AppliedWith(log, r, Some(tx), RowOf(view, tx)[r]))
            && (view.mrt[r] != 0 ==> AppliedWith(log, r, None, view.mrt[r]))
  {
    if log == [] {
    } else {
      var prefix, v := log[..|log| - 1], log[|log| - 1];
      assert log == prefix + [v];
      TimestampsWereApplied(env, prefix, r, tx);
      ProcessAllSnoc(env, prefix, v);
      ProcessSets(ProcessAll(env, prefix), v, r, tx);
      var view := ProcessAll(env, log);
      if r in RowOf(view, tx) {
        AppliedSnoc(prefix, v, r, Some(tx), RowOf(view, tx)[r]);
      }
      AppliedSnoc(prefix, v, r, None, view.mrt[r]);
    }
  }

  /**
   Another vote with timestamp `ts`, by another replica or about another transaction, was applied before every vote
   of `r` (about `tx`) that carries it.
   */
  ghost predicate Overtaken(log: seq<Vote>, r: ReplicaId, tx: Option<Transaction>, ts: Timestamp) {
    exists j :: 0 <= j < |log| && Overtakes(log, j, r, tx, ts)
  }

  ghost predicate Overtakes(log: seq<Vote>, j: nat, r: ReplicaId, tx: Option<Transaction>, ts: Timestamp) {
    && j < |log| && log[j].timestamp == ts && !IsBy(log[j], r, tx)
    && forall i :: 0 <= i < j && log[i].timestamp == ts ==> !IsBy(log[i], r, tx)
  }

  lemma FirstIsOwnIff(log: seq<Vote>, r: ReplicaId, tx: Option<Transaction>, ts: Timestamp, first: Vote)
    requires AppliedWith(log, r, tx, ts) && IsFirstWith(log, ts, first)
    ensures IsBy(first, r, tx) <==> !Overtaken(log, r, tx, ts)
  {
    var k :| 0 <= k < |log| && FirstAt(log, ts, k) && log[k] == first;
    if !IsBy(first, r, tx) {
      assert Overtakes(log, k, r, tx, ts);
    }
  }

  /**
   The vote looked up for a held timestamp is the replica's own vote for the transaction if and only if no other
   vote with that timestamp was applied before it.
   */
  lemma HeldVoteIsOwnIff(env: Env, log: seq<Vote>, r: ReplicaId, tx: Transaction)
    requires Applicable(env, log) && r in RowOf(ProcessAll(env, log), tx)
    ensures var view := ProcessAll(env, log);
            var ts := RowOf(view, tx)[r];
            && ts in view.tsVoteMsg
            && (IsBy(view.tsVoteMsg[ts], r, Some(tx)) <==> !Overtaken(log, r, Some(tx), ts))
  {
    var view := ProcessAll(env, log);
    var ts := RowOf(view, tx)[r];
    ProcessAllKeepsInv(env, log);
    TimestampsWereApplied(env, log, r, tx);
    StoredIsFirst(env, log, ts);
    FirstIsOwnIff(log, r, Some(tx), ts, view.tsVoteMsg[ts]);
  }

  /** The same for most recent timestamps, of which the initial 0 need not come from any vote. */
  lemma RecentVoteIsOwnIff(env: Env, log: seq<Vote>, r: ReplicaId)
    requires Applicable(env, log) && r in env.replicas && ProcessAll(env, log).mrt[r] != 0
    ensures var view := ProcessAll(env, log);
            var ts := view.mrt[r];
            && ts in view.tsVoteMsg
            && (IsBy(view.tsVoteMsg[ts], r, None) <==> !Overtaken(log, r, None, ts))
  {
    var view := ProcessAll(env, log);
    var ts := view.mrt[r];
    TimestampsWereApplied(env, log, r, Transaction([]));
    StoredIsFirst(env, log, ts);
    FirstIsOwnIff(log, r, None, ts, view.tsVoteMsg[ts]);
  }

  /** Every applied vote's timestamp leads back to a vote by the same replica about the same transaction. */
  ghost predicate LeadsBack(view: View, v: Vote) {
    v.timestamp in view.tsVoteMsg && IsBy(view.tsVoteMsg[v.timestamp], v.replicaId, v.transaction)
  }

  ghost predicate SameSubject(u: Vote, v: Vote) {
    u.replicaId == v.replicaId && u.transaction == v.transaction
  }

  /** The evidence store is right about every vote exactly when no two votes on different subjects share a timestamp. */
  lemma EvidenceIsRightIff(env: Env, log: seq<Vote>)
    requires Applicable(env, log)
    ensures (forall v :: v in log ==> LeadsBack(ProcessAll(env, log), v)) <==>
            (forall u, v :: u in log && v in log && u.timestamp == v.timestamp ==> SameSubject(u, v))
  {
    var view := ProcessAll(env, log);
    forall v | v in log ensures v.timestamp in view.tsVoteMsg && IsFirstWith(log, v.timestamp, view.tsVoteMsg[v.timestamp]) {
      StoredIsFirst(env, log, v.timestamp);
    }
    if forall v :: v in log ==> LeadsBack(view, v) {
      forall u, v | u in log && v in log && u.timestamp == v.timestamp ensures SameSubject(u, v) {
        assert LeadsBack(view, u) && LeadsBack(view, v);
      }
    }
    if forall u, v :: u in log && v in log && u.timestamp == v.timestamp ==> SameSubject(u, v) {
      forall v | v in log ensures LeadsBack(view, v) {
        assert SameSubject(view.tsVoteMsg[v.timestamp], v);
      }
    }
  }
}
