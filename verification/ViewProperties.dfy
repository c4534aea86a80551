/** What every run of the view updater keeps, over every arrival order. */
module ViewProperties {
  import opened Types
  import opened VoteFold
  import opened ClientView
  import MessageLayout
  import Buffer = ReorderBuffer

  /** One stream of vote contents per replica. */
  type Streams = ReplicaId -> Stream

  /** Replica `r` does not equivocate towards this client: its accepted votes all come from one stream. */
  ghost predicate Honest(env: Env, arrivals: seq<Vote>, r: ReplicaId, str: Stream) {
    Buffer.FollowsStream(AcceptedFrom(env, arrivals, r), str)
  }

  /**
   The updater refines in-order application: for a replica that does not equivocate, `nextsn` is the least
   sequence number not yet accepted, the backlog holds exactly the accepted ones above it, and the replica's
   column is its votes 0 .. nextsn-1 applied in order. Other replicas may send anything.
   */
  lemma UpdaterRefinesInOrderApplication(env: Env, arrivals: seq<Vote>, r: ReplicaId, str: Stream)
    requires r in env.replicas && Honest(env, arrivals, r, str)
    ensures Buffer.InOrder(SliceOf(Run(env, arrivals).view, r), AcceptedFrom(env, arrivals, r), str)
  {
    ViewIsReorderBufferPerReplica(env, arrivals, r);
    Buffer.BufferDeliversInOrder(AcceptedFrom(env, arrivals, r), str);
  }

  lemma {:induction false} AcceptedAreAccepted(env: Env, arrivals: seq<Vote>, r: ReplicaId)
    ensures forall v :: v in AcceptedFrom(env, arrivals, r) ==> Accepts(env, v) && v.replicaId == r
  {
    if arrivals == [] {
    } else {
      AcceptedAreAccepted(env, arrivals[..|arrivals| - 1], r);
    }
  }

  lemma HeldIffInRow(view: View, q: ReplicaId, tx: Transaction)
    requires q in view.mrt
    ensures tx in ColumnOf(view, q).first <==> q in RowOf(view, tx)
    ensures q in RowOf(view, tx) ==> ColumnOf(view, q).first[tx] == RowOf(view, tx)[q]
  {
  }

  /**
   What the view holds about a replica, in terms of its stream: the row of `tx` has an entry for it exactly when
   one of the applied votes is timely for `tx`, and the entry is the first such vote's timestamp.
   */
  lemma ViewHoldsFirstTimelyVote(env: Env, arrivals: seq<Vote>, r: ReplicaId, str: Stream, tx: Transaction)
    requires r in env.replicas && Honest(env, arrivals, r, str)
    ensures var view := Run(env, arrivals).view;
            r in RowOf(view, tx) <==> exists i: nat :: i < view.nextsn[r] && Timely(str, i, tx)
    ensures var view := Run(env, arrivals).view;
            forall i: nat :: i < view.nextsn[r] && Timely(str, i, tx) && (forall j: nat :: j < i ==> !Timely(str, j, tx)) ==>
              r in RowOf(view, tx) && RowOf(view, tx)[r] == str(i).ts
  {
    var view := Run(env, arrivals).view;
    UpdaterRefinesInOrderApplication(env, arrivals, r, str);
    HeldIffInRow(view, r, tx);
    HeldIffTimely(str, view.nextsn[r], tx);
    forall i: nat | i < view.nextsn[r] && Timely(str, i, tx) && (forall j: nat :: j < i ==> !Timely(str, j, tx))
      ensures r in RowOf(view, tx) && RowOf(view, tx)[r] == str(i).ts
    {
      HeldIsFirstTimely(str, view.nextsn[r], tx, i);
    }
  }

  /**
   A vote at or above the replica's most recent timestamp puts the replica into the row of its transaction, whatever
   the transaction, unless its data are the bytes of a heartbeat; these never get a row. The most recent timestamp
   becomes the vote's in both cases.
   */
  lemma CurrentVoteIsHeldIff(view: View, r: ReplicaId, tx: Transaction, ts: Timestamp, v: Vote)
    requires r in view.mrt && ts >= view.mrt[r]
    ensures var after := ProcessVote(view, r, tx, ts, v);
            && after.mrt == view.mrt[r := ts]
            && (tx.data != HEARTBEAT ==>
                  r in RowOf(after, tx) && RowOf(after, tx)[r] == if r in RowOf(view, tx) then RowOf(view, tx)[r] else ts)
            && (tx.data == HEARTBEAT ==> after.tsps == view.tsps)
  {
  }

  /** A vote below it changes neither. */
  lemma OutdatedVoteIsDropped(view: View, r: ReplicaId, tx: Transaction, ts: Timestamp, v: Vote)
    requires r in view.mrt && ts < view.mrt[r]
    ensures ProcessVote(view, r, tx, ts, v).mrt == view.mrt && ProcessVote(view, r, tx, ts, v).tsps == view.tsps
  {
  }

  // --- Invariants of the whole view ---

  /** Rows are never empty and never for heartbeats. */
  ghost predicate RowsInv(replicas: set<ReplicaId>, tsps: map<Transaction, Row>) {
    forall tx :: tx in tsps ==> tx.data != HEARTBEAT && tsps[tx] != map[] && tsps[tx].Keys <= replicas
  }

  ghost predicate HeldWithVote(tsps: map<Transaction, Row>, mrt: Row, msgs: map<Timestamp, Vote>, tx: Transaction, r: ReplicaId) {
    tx in tsps && r in tsps[tx] ==> tsps[tx][r] in msgs && r in mrt && tsps[tx][r] <= mrt[r]
  }

  /** Held timestamps have a stored vote and are bounded by `mrt`. */
  ghost predicate HeldInv(tsps: map<Transaction, Row>, mrt: Row, msgs: map<Timestamp, Vote>) {
    forall tx: Transaction, r: ReplicaId :: HeldWithVote(tsps, mrt, msgs, tx, r)
  }

  ghost predicate MessagesInv(mrt: Row, msgs: map<Timestamp, Vote>) {
    && (forall r: ReplicaId :: r in mrt ==> mrt[r] == 0 || mrt[r] in msgs)
    && (forall ts: Timestamp :: ts in msgs ==> msgs[ts].timestamp == ts)
  }

  ghost predicate ViewInv(env: Env, view: View) {
    && Wf(env, view)
    && RowsInv(env.replicas.Keys, view.tsps)
    && HeldInv(view.tsps, view.mrt, view.tsVoteMsg)
    && MessagesInv(view.mrt, view.tsVoteMsg)
  }

  lemma RecordKeepsRows(replicas: set<ReplicaId>, tsps: map<Transaction, Row>, tx: Transaction, r: ReplicaId, ts: Timestamp)
    requires RowsInv(replicas, tsps) && tx.data != HEARTBEAT && r in replicas
    ensures RowsInv(replicas, RecordTimestamp(tsps, tx, r, ts))
  {
    assert r in RecordTimestamp(tsps, tx, r, ts)[tx];
  }

  lemma RecordKeepsHeld(tsps: map<Transaction, Row>, mrt: Row, msgs: map<Timestamp, Vote>, tx: Transaction, r: ReplicaId, ts: Timestamp)
    requires HeldInv(tsps, mrt, msgs) && r in mrt && ts in msgs && ts <= mrt[r]
    ensures HeldInv(RecordTimestamp(tsps, tx, r, ts), mrt, msgs)
  {
    var tsps' := RecordTimestamp(tsps, tx, r, ts);
    forall t: Transaction, q: ReplicaId ensures HeldWithVote(tsps', mrt, msgs, t, q) {
      assert HeldWithVote(tsps, mrt, msgs, t, q);
    }
  }

  lemma HeldInvGrows(tsps: map<Transaction, Row>, mrt: Row, msgs: map<Timestamp, Vote>, mrt': Row, msgs': map<Timestamp, Vote>)
    requires HeldInv(tsps, mrt, msgs) && msgs.Keys <= msgs'.Keys
    requires forall q: ReplicaId :: q in mrt ==> q in mrt' && mrt[q] <= mrt'[q]
    ensures HeldInv(tsps, mrt', msgs')
  {
    forall t: Transaction, q: ReplicaId ensures HeldWithVote(tsps, mrt', msgs', t, q) {
      assert HeldWithVote(tsps, mrt, msgs, t, q);
    }
  }

  lemma ProcessVoteKeepsInv(env: Env, view: View, r: ReplicaId, tx: Transaction, ts: Timestamp, v: Vote)
    requires ViewInv(env, view) && r in view.mrt && v.timestamp == ts
    ensures ViewInv(env, ProcessVote(view, r, tx, ts, v))
  {
    var msgs := RecordVote(view.tsVoteMsg, ts, v);
    var mrt: Row := if ts < view.mrt[r] then view.mrt else view.mrt[r := ts];
    HeldInvGrows(view.tsps, view.mrt, view.tsVoteMsg, mrt, msgs);
    if ts >= view.mrt[r] && !IsHeartbeat(tx) {
      RecordKeepsRows(env.replicas.Keys, view.tsps, tx, r, ts);
      RecordKeepsHeld(view.tsps, mrt, msgs, tx, r, ts);
    }
  }

  lemma TakeNextKeepsInv(env: Env, view: View, r: ReplicaId, v: Vote)
    requires ViewInv(env, view) && r in env.replicas
    ensures ViewInv(env, TakeNext(view, r, v))
  {
    assert ViewInv(env, Advance(view, r));
    if v.transaction.Some? {
      ProcessVoteKeepsInv(env, Advance(view, r), r, v.transaction.value, v.timestamp, v);
    }
  }

  lemma {:induction false} DrainKeepsInv(env: Env, view: View, r: ReplicaId)
    requires ViewInv(env, view) && r in env.replicas
    ensures ViewInv(env, DrainBacklog(view, r))
    decreases |BacklogOf(view, r)|
  {
    var pending := BacklogOf(view, r);
    var next := view.nextsn[r];
    if next in pending {
      var removed := view.(backlog := view.backlog[r := pending - {next}]);
      TakeNextKeepsInv(env, removed, r, pending[next]);
      DrainKeepsInv(env, TakeNext(removed, r, pending[next]), r);
    }
  }

  /**
   In every reachable view each held timestamp, and each most recent timestamp except the initial 0, has a
   stored vote that carries that timestamp; rows are never empty, never for heartbeats, and bounded by `mrt`.
   */
  lemma {:induction false} RunKeepsInv(env: Env, arrivals: seq<Vote>)
    ensures ViewInv(env, Run(env, arrivals).view)
  {
    if arrivals == [] {
    } else {
      var prefix, v := arrivals[..|arrivals| - 1], arrivals[|arrivals| - 1];
      RunKeepsInv(env, prefix);
      var before := Run(env, prefix);
      if !before.bailed && Accepts(env, v) && v.sequenceNumber == before.view.nextsn[v.replicaId] {
        TakeNextKeepsInv(env, before.view, v.replicaId, v);
        DrainKeepsInv(env, TakeNext(before.view, v.replicaId, v), v.replicaId);
      }
    }
  }

  /** The 64 signature bytes are over transaction data, timestamp and sequence number, under the key of the named replica. */
  ghost predicate SignedWithItsKey(env: Env, v: Vote)
    requires v.transaction.Some? && v.replicaId in env.replicas
  {
    && |v.signature| == 64
    && exists message :: env.verify(env.replicas[v.replicaId], message, v.signature) && SpellsOut(message, v)
  }

  ghost predicate SpellsOut(message: Bytes, v: Vote)
    requires v.transaction.Some?
  {
    var n := |v.transaction.value.data|;
    && |message| == n + 16 && message[..n] == v.transaction.value.data
    && MessageLayout.FromLittleEndian(message[n..n + 8]) == v.timestamp
    && MessageLayout.FromLittleEndian(message[n + 8..]) == v.sequenceNumber
  }

  lemma OnlyOneMessageSpellsOut(message: Bytes, v: Vote)
    requires v.transaction.Some? && SpellsOut(message, v)
    ensures message == MessageLayout.MessageToSign(v.transaction.value.data, v.timestamp, v.sequenceNumber)
  {
    var data, n := v.transaction.value.data, |v.transaction.value.data|;
    MessageLayout.EncodingIsUnique(message[n..n + 8]);
    MessageLayout.EncodingIsUnique(message[n + 8..]);
    assert message == data + message[n..n + 8] + message[n + 8..];
  }

  lemma AcceptedIffSigned(env: Env, v: Vote)
    ensures Accepts(env, v) <==> v.transaction.Some? && v.replicaId in env.replicas && SignedWithItsKey(env, v)
  {
    if v.transaction.Some? && v.replicaId in env.replicas {
      var data := v.transaction.value.data;
      var message := MessageLayout.MessageToSign(data, v.timestamp, v.sequenceNumber);
      MessageLayout.MessageFields(data, v.timestamp, v.sequenceNumber);
      assert SpellsOut(message, v);
      if SignedWithItsKey(env, v) {
        var m :| env.verify(env.replicas[v.replicaId], m, v.signature) && SpellsOut(m, v);
        OnlyOneMessageSpellsOut(m, v);
      }
    }
  }

  /**
   A vote of a known replica changes the view only if its signature verifies: what is not signed is ignored, and what
   is signed under the number expected next is taken.
   */
  lemma ReceivedIffSigned(env: Env, view: View, v: Vote)
    requires Wf(env, view) && v.transaction.Some? && v.replicaId in env.replicas
    ensures !SignedWithItsKey(env, v) ==> Receive(env, view, v) == RunState(view, false)
    ensures SignedWithItsKey(env, v) && v.sequenceNumber == view.nextsn[v.replicaId] ==>
              var after := Receive(env, view, v).view;
              v.replicaId in after.nextsn && after.nextsn[v.replicaId] > view.nextsn[v.replicaId]
  {
    AcceptedIffSigned(env, v);
    if SignedWithItsKey(env, v) && v.sequenceNumber == view.nextsn[v.replicaId] {
      DrainOnlyAdvances(TakeNext(view, v.replicaId, v), v.replicaId);
    }
  }

  lemma {:induction false} DrainOnlyAdvances(view: View, r: ReplicaId)
    requires r in view.nextsn && r in view.mrt
    ensures r in DrainBacklog(view, r).nextsn && DrainBacklog(view, r).nextsn[r] >= view.nextsn[r]
    decreases |BacklogOf(view, r)|
  {
    var pending := BacklogOf(view, r);
    var next := view.nextsn[r];
    if next in pending {
      var removed := view.(backlog := view.backlog[r := pending - {next}]);
      DrainOnlyAdvances(TakeNext(removed, r, pending[next]), r);
    }
  }

  /** The updater stops with an error exactly when a vote with a transaction names an unknown replica. */
  lemma {:induction false} BailsIffUnknownReplica(env: Env, arrivals: seq<Vote>)
    ensures Run(env, arrivals).bailed <==> exists v :: v in arrivals && v.transaction.Some? && v.replicaId !in env.replicas
  {
    if arrivals == [] {
    } else {
      var prefix, v := arrivals[..|arrivals| - 1], arrivals[|arrivals| - 1];
      BailsIffUnknownReplica(env, prefix);
      assert arrivals == prefix + [v];
    }
  }

  // --- What a run never takes back ---

  ghost predicate MrtRaised(before: View, after: View) {
    && before.mrt.Keys == after.mrt.Keys
    && forall r: ReplicaId :: r in before.mrt ==> before.mrt[r] <= after.mrt[r]
  }

  /** The stored vote for a timestamp stays the first one. */
  ghost predicate VotesKept(before: View, after: View) {
    forall ts: Timestamp :: ts in before.tsVoteMsg ==> ts in after.tsVoteMsg && after.tsVoteMsg[ts] == before.tsVoteMsg[ts]
  }

  ghost predicate EntryKept(before: View, after: View, tx: Transaction, r: ReplicaId) {
    r in RowOf(before, tx) ==> r in RowOf(after, tx) && RowOf(after, tx)[r] == RowOf(before, tx)[r]
  }

  /** Most recent timestamps only rise, stored votes stay, and the timestamps held are written once. */
  ghost predicate Grown(before: View, after: View) {
    && MrtRaised(before, after)
    && VotesKept(before, after)
    && forall tx: Transaction, r: ReplicaId :: EntryKept(before, after, tx, r)
  }

  lemma GrownTrans(a: View, b: View, c: View)
    requires Grown(a, b) && Grown(b, c)
    ensures Grown(a, c)
  {
    forall tx: Transaction, r: ReplicaId ensures EntryKept(a, c, tx, r) {
      assert EntryKept(a, b, tx, r) && EntryKept(b, c, tx, r);
    }
  }

  lemma TakeNextGrows(view: View, r: ReplicaId, v: Vote)
    requires r in view.nextsn && r in view.mrt
    ensures Grown(view, TakeNext(view, r, v))
  {
    forall tx: Transaction, q: ReplicaId ensures EntryKept(view, TakeNext(view, r, v), tx, q) {
    }
  }

  lemma {:induction false} DrainGrows(view: View, r: ReplicaId)
    requires r in view.nextsn && r in view.mrt
    ensures Grown(view, DrainBacklog(view, r))
    decreases |BacklogOf(view, r)|
  {
    var pending := BacklogOf(view, r);
    var next := view.nextsn[r];
    if next in pending {
      var removed := view.(backlog := view.backlog[r := pending - {next}]);
      var after := TakeNext(removed, r, pending[next]);
      TakeNextGrows(removed, r, pending[next]);
      DrainGrows(after, r);
      GrownTrans(removed, after, DrainBacklog(after, r));
      SameMapsGrow(view, removed, DrainBacklog(view, r));
    }
  }

  lemma SameMapsGrow(view: View, same: View, after: View)
    requires view.mrt == same.mrt && view.tsps == same.tsps && view.tsVoteMsg == same.tsVoteMsg && Grown(same, after)
    ensures Grown(view, after)
  {
    forall tx: Transaction, r: ReplicaId ensures EntryKept(view, after, tx, r) {
      assert EntryKept(same, after, tx, r);
    }
  }

  lemma ReceiveGrows(env: Env, view: View, v: Vote)
    requires Wf(env, view)
    ensures Grown(view, Receive(env, view, v).view)
  {
    if Accepts(env, v) && v.sequenceNumber == view.nextsn[v.replicaId] {
      var after := TakeNext(view, v.replicaId, v);
      TakeNextGrows(view, v.replicaId, v);
      DrainGrows(after, v.replicaId);
      GrownTrans(view, after, DrainBacklog(after, v.replicaId));
    }
  }

  /** Over any run, even with equivocating replicas: nothing held is lost, changed or lowered. */
  lemma {:induction false} RunsOnlyGrow(env: Env, earlier: seq<Vote>, later: seq<Vote>)
    ensures Grown(Run(env, earlier).view, Run(env, earlier + later).view)
  {
    if later == [] {
      assert earlier + later == earlier;
    } else {
      var prefix, v := earlier + later[..|later| - 1], later[|later| - 1];
      RunsOnlyGrow(env, earlier, later[..|later| - 1]);
      assert earlier + later == prefix + [v];
      OneVoteGrows(env, prefix, v);
      GrownTrans(Run(env, earlier).view, Run(env, prefix).view, Run(env, prefix + [v]).view);
    }
  }

  lemma OneVoteGrows(env: Env, prefix: seq<Vote>, v: Vote)
    ensures Grown(Run(env, prefix).view, Run(env, prefix + [v]).view)
  {
    assert (prefix + [v])[..|prefix|] == prefix;
    if !Run(env, prefix).bailed {
      ReceiveGrows(env, Run(env, prefix).view, v);
    }
  }

  // --- Faulty votes do not interfere ---

  function Erase(arrivals: seq<Vote>, r: ReplicaId): seq<Vote> {
    if arrivals == [] then []
    else
      var prefix, v := Erase(arrivals[..|arrivals| - 1], r), arrivals[|arrivals| - 1];
      if v.replicaId == r then prefix else prefix + [v]
  }

  lemma {:induction false} EraseKeepsOtherVotes(env: Env, arrivals: seq<Vote>, r: ReplicaId, q: ReplicaId)
    requires r in env.replicas && q != r
    ensures Run(env, Erase(arrivals, r)).bailed == Run(env, arrivals).bailed
    ensures AcceptedFrom(env, Erase(arrivals, r), q) == AcceptedFrom(env, arrivals, q)
  {
    if arrivals == [] {
    } else {
      var prefix, v := arrivals[..|arrivals| - 1], arrivals[|arrivals| - 1];
      EraseKeepsOtherVotes(env, prefix, r, q);
      var erased := Erase(prefix, r);
      if v.replicaId != r {
        assert (erased + [v])[..|erased|] == erased;
      }
    }
  }

  /** Erasing every vote of one known replica leaves every other replica's share of the view unchanged. */
  lemma FaultyVotesDoNotInterfere(env: Env, arrivals: seq<Vote>, r: ReplicaId, q: ReplicaId)
    requires r in env.replicas && q in env.replicas && q != r
    ensures var with, without := Run(env, arrivals).view, Run(env, Erase(arrivals, r)).view;
            && with.nextsn[q] == without.nextsn[q]
            && BacklogOf(with, q) == BacklogOf(without, q)
            && with.mrt[q] == without.mrt[q]
            && forall tx :: (q in RowOf(with, tx) <==> q in RowOf(without, tx))
                         && (q in RowOf(with, tx) ==> RowOf(with, tx)[q] == RowOf(without, tx)[q])
  {
    ViewIsReorderBufferPerReplica(env, arrivals, q);
    ViewIsReorderBufferPerReplica(env, Erase(arrivals, r), q);
    EraseKeepsOtherVotes(env, arrivals, r, q);
    ColumnDecidesRows(Run(env, arrivals).view, Run(env, Erase(arrivals, r)).view, q);
  }

  lemma ColumnDecidesRows(a: View, b: View, q: ReplicaId)
    requires q in a.mrt && q in b.mrt && ColumnOf(a, q) == ColumnOf(b, q)
    ensures forall tx :: (q in RowOf(a, tx) <==> q in RowOf(b, tx)) && (q in RowOf(a, tx) ==> RowOf(a, tx)[q] == RowOf(b, tx)[q])
  {
    forall tx
      ensures (q in RowOf(a, tx) <==> q in RowOf(b, tx)) && (q in RowOf(a, tx) ==> RowOf(a, tx)[q] == RowOf(b, tx)[q])
    {
      HeldIffInRow(a, q, tx);
      HeldIffInRow(b, q, tx);
    }
  }

  // --- The evidence store ---

  /** Some replica's stream carries timestamp `ts` in one of its first `nextsn` votes. */
  ghost predicate Applied(nextsn: map<ReplicaId, nat>, streams: Streams, ts: Timestamp) {
    exists r: ReplicaId, i: nat :: r in nextsn && i < nextsn[r] && streams(r)(i).ts == ts
  }

  ghost predicate EvidenceIsApplied(view: View, streams: Streams) {
    forall ts: Timestamp :: ts in view.tsVoteMsg <==> Applied(view.nextsn, streams, ts)
  }

  lemma AppliedAdvances(nextsn: map<ReplicaId, nat>, r: ReplicaId, streams: Streams, ts: Timestamp)
    requires r in nextsn
    ensures Applied(nextsn[r := nextsn[r] + 1], streams, ts) <==>
            Applied(nextsn, streams, ts) || streams(r)(nextsn[r]).ts == ts
  {
    var nextsn' := nextsn[r := nextsn[r] + 1];
    if Applied(nextsn, streams, ts) {
      var q: ReplicaId, i: nat :| q in nextsn && i < nextsn[q] && streams(q)(i).ts == ts;
      assert q in nextsn' && i < nextsn'[q];
    }
    if streams(r)(nextsn[r]).ts == ts {
      assert r in nextsn' && nextsn[r] < nextsn'[r];
    }
  }

  lemma TakeNextKeepsEvidence(view: View, r: ReplicaId, v: Vote, streams: Streams)
    requires r in view.nextsn && r in view.mrt && EvidenceIsApplied(view, streams)
    requires v.transaction.Some? && ContentOf(v) == streams(r)(view.nextsn[r])
    ensures EvidenceIsApplied(TakeNext(view, r, v), streams)
  {
    var after := TakeNext(view, r, v);
    forall ts: Timestamp ensures ts in after.tsVoteMsg <==> Applied(after.nextsn, streams, ts) {
      AppliedAdvances(view.nextsn, r, streams, ts);
    }
  }

  ghost predicate BacklogFollows(view: View, r: ReplicaId, str: Stream) {
    forall k: SequenceNumber :: k in BacklogOf(view, r) ==> BacklogOf(view, r)[k].transaction.Some? && ContentOf(BacklogOf(view, r)[k]) == str(k)
  }

  lemma {:induction false} DrainKeepsEvidence(view: View, r: ReplicaId, streams: Streams)
    requires r in view.nextsn && r in view.mrt && EvidenceIsApplied(view, streams) && BacklogFollows(view, r, streams(r))
    ensures EvidenceIsApplied(DrainBacklog(view, r), streams)
    decreases |BacklogOf(view, r)|
  {
    var pending := BacklogOf(view, r);
    var next := view.nextsn[r];
    if next in pending {
      var removed := view.(backlog := view.backlog[r := pending - {next}]);
      assert EvidenceIsApplied(removed, streams);
      TakeNextKeepsEvidence(removed, r, pending[next], streams);
      var after := TakeNext(removed, r, pending[next]);
      assert BacklogOf(after, r) == pending - {next};
      DrainKeepsEvidence(after, r, streams);
    }
  }

  lemma AdmitKeepsEvidence(view: View, v: Vote, streams: Streams)
    requires v.replicaId in view.nextsn && v.replicaId in view.mrt
    requires EvidenceIsApplied(view, streams) && BacklogFollows(view, v.replicaId, streams(v.replicaId))
    requires v.transaction.Some? && ContentOf(v) == streams(v.replicaId)(v.sequenceNumber)
    ensures EvidenceIsApplied(Admit(view, v), streams)
  {
    var r := v.replicaId;
    if v.sequenceNumber == view.nextsn[r] {
      TakeNextKeepsEvidence(view, r, v, streams);
      TakeNextOnSlices(view, r, v, r);
      DrainKeepsEvidence(TakeNext(view, r, v), r, streams);
    }
  }

  /** The keys of the evidence store are exactly the timestamps of the votes applied so far. */
  lemma {:induction false} EvidenceKeysAreAppliedTimestamps(env: Env, arrivals: seq<Vote>, streams: Streams)
    requires forall r: ReplicaId :: r in env.replicas ==> Honest(env, arrivals, r, streams(r))
    ensures EvidenceIsApplied(Run(env, arrivals).view, streams)
  {
    if arrivals == [] {
    } else {
      var prefix, v := arrivals[..|arrivals| - 1], arrivals[|arrivals| - 1];
      HonestPrefix(env, arrivals, streams);
      EvidenceKeysAreAppliedTimestamps(env, prefix, streams);
      var before := Run(env, prefix);
      if !before.bailed && Accepts(env, v) {
        var r := v.replicaId;
        assert v in AcceptedFrom(env, arrivals, r);
        UpdaterRefinesInOrderApplication(env, prefix, r, streams(r));
        AdmitKeepsEvidence(before.view, v, streams);
      }
    }
  }

  lemma HonestPrefix(env: Env, arrivals: seq<Vote>, streams: Streams)
    requires arrivals != []
    requires forall r: ReplicaId :: r in env.replicas ==> Honest(env, arrivals, r, streams(r))
    ensures forall r: ReplicaId :: r in env.replicas ==> Honest(env, arrivals[..|arrivals| - 1], r, streams(r))
  {
    forall r: ReplicaId | r in env.replicas ensures Honest(env, arrivals[..|arrivals| - 1], r, streams(r)) {
      assert Honest(env, arrivals, r, streams(r));
      assert forall v :: v in AcceptedFrom(env, arrivals[..|arrivals| - 1], r) ==> v in AcceptedFrom(env, arrivals, r);
    }
  }

  // --- Arrival order does not matter ---

  lemma {:induction false} AcceptedVotes(env: Env, arrivals: seq<Vote>, r: ReplicaId)
    requires !Run(env, arrivals).bailed
    ensures forall v :: v in AcceptedFrom(env, arrivals, r) <==> v in arrivals && Accepts(env, v) && v.replicaId == r
  {
    if arrivals == [] {
    } else {
      var prefix, v := arrivals[..|arrivals| - 1], arrivals[|arrivals| - 1];
      AcceptedVotes(env, prefix, r);
      assert arrivals == prefix + [v];
    }
  }

  ghost predicate SameVotes(a: seq<Vote>, b: seq<Vote>) {
    forall v :: v in a <==> v in b
  }

  /** Equal up to the signature bytes of backlogged votes and the choice of vote stored per timestamp. */
  ghost predicate SameView(env: Env, a: View, b: View, streams: Streams) {
    && a.nextsn == b.nextsn && a.mrt == b.mrt && a.tsps == b.tsps
    && a.tsVoteMsg.Keys == b.tsVoteMsg.Keys
    && forall r: ReplicaId :: r in env.replicas ==>
         BacklogOf(a, r).Keys == BacklogOf(b, r).Keys && BacklogFollows(a, r, streams(r)) && BacklogFollows(b, r, streams(r))
  }

  ghost predicate SameShare(a: View, b: View, r: ReplicaId, str: Stream) {
    && r in a.nextsn && r in b.nextsn && r in a.mrt && r in b.mrt
    && a.nextsn[r] == b.nextsn[r]
    && ColumnOf(a, r) == ColumnOf(b, r)
    && BacklogOf(a, r).Keys == BacklogOf(b, r).Keys
    && BacklogFollows(a, r, str) && BacklogFollows(b, r, str)
  }

  lemma SameVotesSameShare(env: Env, a: seq<Vote>, b: seq<Vote>, r: ReplicaId, str: Stream)
    requires SameVotes(a, b) && !Run(env, a).bailed && !Run(env, b).bailed
    requires r in env.replicas && Honest(env, a, r, str)
    ensures Honest(env, b, r, str)
    ensures SameShare(Run(env, a).view, Run(env, b).view, r, str)
  {
    AcceptedVotes(env, a, r);
    AcceptedVotes(env, b, r);
    var vs, ws := AcceptedFrom(env, a, r), AcceptedFrom(env, b, r);
    assert Buffer.Received(vs) == Buffer.Received(ws);
    UpdaterRefinesInOrderApplication(env, a, r, str);
    UpdaterRefinesInOrderApplication(env, b, r, str);
    Buffer.InOrderIsDetermined(SliceOf(Run(env, a).view, r), vs, SliceOf(Run(env, b).view, r), ws, str);
  }

  /** The columns decide the rows, since no row is ever empty. */
  lemma SameColumnsSameRows(env: Env, a: View, b: View)
    requires ViewInv(env, a) && ViewInv(env, b)
    requires forall r: ReplicaId :: r in env.replicas ==> ColumnOf(a, r) == ColumnOf(b, r)
    ensures a.tsps == b.tsps
  {
    forall tx: Transaction ensures tx in a.tsps <==> tx in b.tsps {
      SameRow(env, a, b, tx);
    }
    forall tx: Transaction | tx in a.tsps ensures a.tsps[tx] == b.tsps[tx] {
      SameRow(env, a, b, tx);
    }
  }

  lemma SameRow(env: Env, a: View, b: View, tx: Transaction)
    requires ViewInv(env, a) && ViewInv(env, b)
    requires forall r: ReplicaId :: r in env.replicas ==> ColumnOf(a, r) == ColumnOf(b, r)
    ensures tx in a.tsps <==> tx in b.tsps
    ensures RowOf(a, tx) == RowOf(b, tx)
  {
    forall q: ReplicaId | q in env.replicas ensures SameCell(RowOf(a, tx), RowOf(b, tx), q) {
      HeldIffInRow(a, q, tx);
      HeldIffInRow(b, q, tx);
    }
    SameCellsSameRow(RowOf(a, tx), RowOf(b, tx), env.replicas.Keys);
  }

  ghost predicate SameCell(a: Row, b: Row, q: ReplicaId) {
    (q in a <==> q in b) && (q in a ==> a[q] == b[q])
  }

  lemma SameCellsSameRow(a: Row, b: Row, keys: set<ReplicaId>)
    requires a.Keys <= keys && b.Keys <= keys && forall q <- keys :: SameCell(a, b, q)
    ensures a == b
  {
    assert forall q: ReplicaId :: q in a ==> q in keys && SameCell(a, b, q);
    assert forall q: ReplicaId :: q in b ==> q in keys && SameCell(a, b, q);
  }

  /**
   Two clients that were sent the same votes, in whatever order and however often, hold the same view, provided
   no replica equivocates.
   */
  lemma ArrivalOrderDoesNotMatter(env: Env, a: seq<Vote>, b: seq<Vote>, streams: Streams)
    requires SameVotes(a, b) && !Run(env, a).bailed
    requires forall r: ReplicaId :: r in env.replicas ==> Honest(env, a, r, streams(r))
    ensures !Run(env, b).bailed
    ensures SameView(env, Run(env, a).view, Run(env, b).view, streams)
  {
    var va, vb := Run(env, a).view, Run(env, b).view;
    BailsIffUnknownReplica(env, a);
    BailsIffUnknownReplica(env, b);
    forall r: ReplicaId | r in env.replicas ensures Honest(env, b, r, streams(r)) && SameShare(va, vb, r, streams(r)) {
      SameVotesSameShare(env, a, b, r, streams(r));
    }
    EvidenceKeysAreAppliedTimestamps(env, a, streams);
    EvidenceKeysAreAppliedTimestamps(env, b, streams);
    RunKeepsInv(env, a);
    RunKeepsInv(env, b);
    SameSharesSameView(env, va, vb, streams);
  }

  lemma SameSharesSameView(env: Env, a: View, b: View, streams: Streams)
    requires ViewInv(env, a) && ViewInv(env, b)
    requires EvidenceIsApplied(a, streams) && EvidenceIsApplied(b, streams)
    requires forall r: ReplicaId :: r in env.replicas ==> SameShare(a, b, r, streams(r))
    ensures SameView(env, a, b, streams)
  {
    SameColumns(env, a, b, streams);
    SameColumnsSameRows(env, a, b);
    SameEvidence(a, b, streams);
  }

  lemma SameColumns(env: Env, a: View, b: View, streams: Streams)
    requires Wf(env, a) && Wf(env, b)
    requires forall r: ReplicaId :: r in env.replicas ==> SameShare(a, b, r, streams(r))
    ensures a.nextsn == b.nextsn && a.mrt == b.mrt
    ensures forall r: ReplicaId :: r in env.replicas ==> ColumnOf(a, r) == ColumnOf(b, r)
  {
    forall r: ReplicaId | r in env.replicas ensures a.nextsn[r] == b.nextsn[r] && a.mrt[r] == b.mrt[r] {
      assert SameShare(a, b, r, streams(r));
    }
  }

  lemma SameEvidence(a: View, b: View, streams: Streams)
    requires a.nextsn == b.nextsn && EvidenceIsApplied(a, streams) && EvidenceIsApplied(b, streams)
    ensures a.tsVoteMsg.Keys == b.tsVoteMsg.Keys
  {
    assert forall ts: Timestamp :: ts in a.tsVoteMsg <==> ts in b.tsVoteMsg;
  }
}
