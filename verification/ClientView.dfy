/** The client's view of the network as a value, and what each arriving vote does to it. */
module ClientView {
  import opened Types
  import opened VoteFold
  import MessageLayout
  import Buffer = ReorderBuffer

  const SIGNATURE_SIZE := 64

  /** The configured replicas with their public keys, and the signature scheme's verdict on (key, message, signature). */
  datatype Env = Env(replicas: map<ReplicaId, Bytes>, verify: (Bytes, Bytes, Bytes) -> bool)

  datatype View = View(
    nextsn: map<ReplicaId, nat>,
    backlog: map<ReplicaId, map<SequenceNumber, Vote>>,
    mrt: Row,
    tsps: map<Transaction, Row>,
    tsVoteMsg: map<Timestamp, Vote>)

  /** The view, and whether the updater has stopped with an error. */
  datatype RunState = RunState(view: View, bailed: bool)

  predicate Wf(env: Env, view: View) {
    view.nextsn.Keys == view.mrt.Keys == env.replicas.Keys
  }

  function Initial(env: Env): (view: View)
    ensures Wf(env, view)
  {
    View(map r: ReplicaId | r in env.replicas :: 0, map[], map r: ReplicaId | r in env.replicas :: 0, map[], map[])
  }

  /** Signatures of the wrong size are rejected before the scheme is asked. */
  predicate VerifyVoteSignature(env: Env, pk: Bytes, data: Bytes, ts: Timestamp, sn: SequenceNumber, sig: Bytes) {
    |sig| == SIGNATURE_SIZE && env.verify(pk, MessageLayout.MessageToSign(data, ts, sn), sig)
  }

  predicate Accepts(env: Env, v: Vote) {
    && v.transaction.Some?
    && v.replicaId in env.replicas
    && VerifyVoteSignature(env, env.replicas[v.replicaId], v.transaction.value.data, v.timestamp, v.sequenceNumber, v.signature)
  }

  function RowOf(view: View, tx: Transaction): Row {
    if tx in view.tsps then view.tsps[tx] else map[]
  }

  function BacklogOf(view: View, r: ReplicaId): map<SequenceNumber, Vote> {
    if r in view.backlog then view.backlog[r] else map[]
  }

  /** Creates the transaction's row if needed, and keeps a timestamp the replica already has there. */
  function RecordTimestamp(tsps: map<Transaction, Row>, tx: Transaction, r: ReplicaId, ts: Timestamp): map<Transaction, Row> {
    var row: Row := if tx in tsps then tsps[tx] else map[];
    if r in row && row[r] != ts then tsps else tsps[tx := row[r := ts]]
  }

  function RecordVote(msgs: map<Timestamp, Vote>, ts: Timestamp, v: Vote): map<Timestamp, Vote> {
    if ts in msgs then msgs else msgs[ts := v]
  }

  function ProcessVote(view: View, r: ReplicaId, tx: Transaction, ts: Timestamp, v: Vote): (after: View)
    requires r in view.mrt
    ensures after.nextsn == view.nextsn && after.backlog == view.backlog && after.mrt.Keys == view.mrt.Keys
  {
    var noted := view.(tsVoteMsg := RecordVote(view.tsVoteMsg, ts, v));
    if ts < view.mrt[r] then noted
    else
      var raised := noted.(mrt := view.mrt[r := ts]);
      if IsHeartbeat(tx) then raised
      else raised.(tsps := RecordTimestamp(view.tsps, tx, r, ts))
  }

  function Advance(view: View, r: ReplicaId): View
    requires r in view.nextsn
  {
    view.(nextsn := view.nextsn[r := view.nextsn[r] + 1])
  }

  /** Takes `v` as the next vote of replica `r`. */
  function TakeNext(view: View, r: ReplicaId, v: Vote): (after: View)
    requires r in view.nextsn && r in view.mrt
    ensures after.nextsn == Advance(view, r).nextsn && after.backlog == view.backlog && after.mrt.Keys == view.mrt.Keys
  {
    if v.transaction.None? then Advance(view, r)
    else ProcessVote(Advance(view, r), r, v.transaction.value, v.timestamp, v)
  }

  function DrainBacklog(view: View, r: ReplicaId): View
    requires r in view.nextsn && r in view.mrt
    decreases |BacklogOf(view, r)|
  {
    var pending := BacklogOf(view, r);
    var next := view.nextsn[r];
    if next in pending then
      var removed := view.(backlog := view.backlog[r := pending - {next}]);
      DrainBacklog(TakeNext(removed, r, pending[next]), r)
    else view
  }

  function Admit(view: View, v: Vote): View
    requires v.replicaId in view.nextsn && v.replicaId in view.mrt
  {
    var r, sn := v.replicaId, v.sequenceNumber;
    if sn < view.nextsn[r] then view
    else if sn > view.nextsn[r] then view.(backlog := view.backlog[r := BacklogOf(view, r)[sn := v]])
    else DrainBacklog(TakeNext(view, r, v), r)
  }

  /** A vote without a transaction is ignored before its replica is looked up; an unknown replica stops the updater. */
  function Receive(env: Env, view: View, v: Vote): RunState
    requires Wf(env, view)
  {
    if v.transaction.None? then RunState(view, false)
    else if v.replicaId !in env.replicas then RunState(view, true)
    else if !Accepts(env, v) then RunState(view, false)
    else RunState(Admit(view, v), false)
  }

  function Run(env: Env, arrivals: seq<Vote>): (s: RunState)
    ensures Wf(env, s.view)
  {
    if arrivals == [] then RunState(Initial(env), false)
    else
      var before := Run(env, arrivals[..|arrivals| - 1]);
      if before.bailed then before
      else
        var v := arrivals[|arrivals| - 1];
        ReceiveKeepsWf(env, before.view, v);
        Receive(env, before.view, v)
  }

  lemma {:induction false} DrainKeepsKeys(view: View, r: ReplicaId)
    requires r in view.nextsn && r in view.mrt
    ensures var after := DrainBacklog(view, r);
               after.nextsn.Keys == view.nextsn.Keys && after.mrt.Keys == view.mrt.Keys
    decreases |BacklogOf(view, r)|
  {
    var pending := BacklogOf(view, r);
    var next := view.nextsn[r];
    if next in pending {
      var removed := view.(backlog := view.backlog[r := pending - {next}]);
      DrainKeepsKeys(TakeNext(removed, r, pending[next]), r);
    }
  }

  lemma ReceiveKeepsWf(env: Env, view: View, v: Vote)
    requires Wf(env, view)
    ensures Wf(env, Receive(env, view, v).view)
  {
    if Accepts(env, v) && v.sequenceNumber == view.nextsn[v.replicaId] {
      DrainKeepsKeys(TakeNext(view, v.replicaId, v), v.replicaId);
    }
  }

  // --- One replica's share of the view ---

  function ColumnOf(view: View, r: ReplicaId): Column
    requires r in view.mrt
  {
    Column(view.mrt[r], HeldBy(view.tsps, r))
  }

  function SliceOf(view: View, r: ReplicaId): Buffer.Slice
    requires r in view.nextsn && r in view.mrt
  {
    Buffer.Slice(view.nextsn[r], BacklogOf(view, r), ColumnOf(view, r))
  }

  /** The votes of replica `r` that reached the reorder buffer, in arrival order. */
  function AcceptedFrom(env: Env, arrivals: seq<Vote>, r: ReplicaId): seq<Vote> {
    if arrivals == [] then []
    else
      var prefix, v := arrivals[..|arrivals| - 1], arrivals[|arrivals| - 1];
      var before := AcceptedFrom(env, prefix, r);
      if !Run(env, prefix).bailed && Accepts(env, v) && v.replicaId == r then before + [v] else before
  }

  function HeldBy(tsps: map<Transaction, Row>, r: ReplicaId): map<Transaction, Timestamp> {
    map tx | tx in tsps && r in tsps[tx] :: tsps[tx][r]
  }

  lemma RecordOnColumns(tsps: map<Transaction, Row>, tx: Transaction, r: ReplicaId, ts: Timestamp, q: ReplicaId)
    ensures HeldBy(RecordTimestamp(tsps, tx, r, ts), q) ==
            if q == r && !(tx in HeldBy(tsps, r) && HeldBy(tsps, r)[tx] != ts) then HeldBy(tsps, q)[tx := ts]
            else HeldBy(tsps, q)
  {
    var held, held' := HeldBy(tsps, q), HeldBy(RecordTimestamp(tsps, tx, r, ts), q);
    assert q != r ==> (tx in held' <==> tx in held) && (tx in held ==> held'[tx] == held[tx]);
    assert forall t: Transaction :: t != tx ==> (t in held' <==> t in held) && (t in held ==> held'[t] == held[t]);
  }

  lemma ProcessVoteOnColumns(view: View, r: ReplicaId, tx: Transaction, ts: Timestamp, v: Vote, q: ReplicaId)
    requires r in view.mrt && q in view.mrt
    ensures q in ProcessVote(view, r, tx, ts, v).mrt
    ensures ColumnOf(ProcessVote(view, r, tx, ts, v), q) ==
            if q == r then Apply(ColumnOf(view, q), Content(tx, ts)) else ColumnOf(view, q)
  {
    RecordOnColumns(view.tsps, tx, r, ts, q);
  }

  lemma TakeNextOnSlices(view: View, r: ReplicaId, v: Vote, q: ReplicaId)
    requires r in view.nextsn && r in view.mrt && q in view.nextsn && q in view.mrt
    ensures var after := TakeNext(view, r, v);
            && q in after.nextsn && q in after.mrt
            && SliceOf(after, q) ==
               if q == r then Buffer.Slice(view.nextsn[r] + 1, BacklogOf(view, r), Buffer.ApplyVote(ColumnOf(view, r), v))
               else SliceOf(view, q)
  {
    var taken := Advance(view, r);
    assert ColumnOf(taken, q) == ColumnOf(view, q);
    if v.transaction.Some? {
      ProcessVoteOnColumns(taken, r, v.transaction.value, v.timestamp, v, q);
    }
  }

  lemma {:induction false} DrainOnSlices(view: View, r: ReplicaId, q: ReplicaId)
    requires r in view.nextsn && r in view.mrt && q in view.nextsn && q in view.mrt
    ensures var after := DrainBacklog(view, r);
            && q in after.nextsn && q in after.mrt
            && SliceOf(after, q) == if q == r then Buffer.Drain(SliceOf(view, r)) else SliceOf(view, q)
    decreases |BacklogOf(view, r)|
  {
    var pending := BacklogOf(view, r);
    var next := view.nextsn[r];
    if next in pending {
      var removed := view.(backlog := view.backlog[r := pending - {next}]);
      assert ColumnOf(removed, q) == ColumnOf(view, q);
      TakeNextOnSlices(removed, r, pending[next], q);
      TakeNextOnSlices(removed, r, pending[next], r);
      DrainOnSlices(TakeNext(removed, r, pending[next]), r, q);
    }
  }

  lemma AdmitOnSlices(view: View, v: Vote, q: ReplicaId)
    requires v.replicaId in view.nextsn && v.replicaId in view.mrt && q in view.nextsn && q in view.mrt
    ensures var after := Admit(view, v);
            && q in after.nextsn && q in after.mrt
            && SliceOf(after, q) == if q == v.replicaId then Buffer.Deliver(SliceOf(view, q), v) else SliceOf(view, q)
  {
    var r := v.replicaId;
    if v.sequenceNumber == view.nextsn[r] {
      TakeNextOnSlices(view, r, v, q);
      TakeNextOnSlices(view, r, v, r);
      DrainOnSlices(TakeNext(view, r, v), r, q);
    } else {
      assert ColumnOf(Admit(view, v), q) == ColumnOf(view, q);
    }
  }

  /** Each replica's share of the view depends only on that replica's own accepted votes. */
  lemma {:induction false} ViewIsReorderBufferPerReplica(env: Env, arrivals: seq<Vote>, r: ReplicaId)
    requires r in env.replicas
    ensures SliceOf(Run(env, arrivals).view, r) == Buffer.DeliverAll(AcceptedFrom(env, arrivals, r))
  {
    if arrivals == [] {
    } else {
      var prefix, v := arrivals[..|arrivals| - 1], arrivals[|arrivals| - 1];
      ViewIsReorderBufferPerReplica(env, prefix, r);
      var before := Run(env, prefix);
      if !before.bailed && Accepts(env, v) {
        AdmitOnSlices(before.view, v, r);
        var accepted := AcceptedFrom(env, prefix, r);
        assert (accepted + [v])[..|accepted|] == accepted;
      }
    }
  }
}
