/** From replica runs to client reads: the whole pipeline, with only the signature scheme and the codec assumed. */
module EndToEnd {
  import opened Types
  import opened VoteFold
  import opened MessageLayout
  import opened OrderStatistics
  import opened ReadBounds
  import opened ClientView
  import opened ViewProperties
  import opened ClientApi
  import opened CrossClient
  import Buffer = ReorderBuffer
  import Durability = LogDurability
  import Reads = ReadInterleaving
  import Replicas = ReplicaRun

  /** A replica run that a replica took part in. */
  datatype HonestRun = HonestRun(replica: Replicas.Replica, actions: seq<Replicas.Action>)

  function SignedBy(run: HonestRun): set<Vote> {
    Replicas.Execute(run.replica, run.actions).signed
  }

  predicate IsMessageOf(v: Vote, message: Bytes) {
    && v.transaction.Some?
    && message == MessageToSign(v.transaction.value.data, v.timestamp, v.sequenceNumber)
  }

  /** Only what the replica signed in its run verifies under its key. */
  ghost predicate Unforgeable(env: Env, r: ReplicaId, run: HonestRun) {
    forall message, signature ::
      r in env.replicas && env.verify(env.replicas[r], message, signature) ==>
        exists v :: v in SignedBy(run) && IsMessageOf(v, message)
  }

  /** What was signed under a sequence number. */
  ghost function ContentAt(signed: set<Vote>, n: nat): Content {
    if exists v :: v in signed && v.sequenceNumber == n && v.transaction.Some? then
      var v :| v in signed && v.sequenceNumber == n && v.transaction.Some?;
      ContentOf(v)
    else Content(Transaction([]), 0)
  }

  ghost function StreamOf(signed: set<Vote>): Stream {
    (n: nat) => ContentAt(signed, n)
  }

  ghost function StreamsOf(runs: map<ReplicaId, HonestRun>): Streams {
    (r: ReplicaId) => StreamOf(if r in runs then SignedBy(runs[r]) else {})
  }

  /** Two votes that say the same thing; their signature bytes may differ. */
  predicate SameMessage(u: Vote, v: Vote) {
    u.transaction == v.transaction && u.timestamp == v.timestamp && u.sequenceNumber == v.sequenceNumber
  }

  /** Every vote that a client accepted from `r` is one that the replica signed in its run. */
  ghost predicate Genuine(env: Env, arrivals: seq<Vote>, r: ReplicaId, run: HonestRun) {
    forall v :: v in AcceptedFrom(env, arrivals, r) ==> exists u :: u in SignedBy(run) && SameMessage(u, v)
  }

  /** An accepted vote is one that the replica signed: the signed bytes decide all three fields. */
  lemma AcceptedVoteWasSigned(env: Env, r: ReplicaId, run: HonestRun, v: Vote)
    requires Unforgeable(env, r, run) && Accepts(env, v) && v.replicaId == r
    ensures exists u :: u in SignedBy(run) && SameMessage(u, v)
  {
    var data := v.transaction.value.data;
    var message := MessageToSign(data, v.timestamp, v.sequenceNumber);
    assert env.verify(env.replicas[r], message, v.signature);
    var u :| u in SignedBy(run) && IsMessageOf(u, message);
    MessageToSignInjective(data, v.timestamp, v.sequenceNumber, u.transaction.value.data, u.timestamp, u.sequenceNumber);
    assert SameMessage(u, v);
  }

  lemma UnforgeableIsGenuine(env: Env, arrivals: seq<Vote>, r: ReplicaId, run: HonestRun)
    requires Unforgeable(env, r, run)
    ensures Genuine(env, arrivals, r, run)
  {
    AcceptedAreAccepted(env, arrivals, r);
    forall v | v in AcceptedFrom(env, arrivals, r) ensures exists u :: u in SignedBy(run) && SameMessage(u, v) {
      AcceptedVoteWasSigned(env, r, run, v);
    }
  }

  /** No number was signed twice, so a vote signed in the run carries what the run signed under its number. */
  lemma SignedVoteIsInStream(run: HonestRun, u: Vote)
    requires u in SignedBy(run) && u.transaction.Some?
    ensures StreamOf(SignedBy(run))(u.sequenceNumber) == ContentOf(u)
  {
    Replicas.SignedNumbersAreUnique(run.replica, run.actions);
  }

  /** A replica that runs the code does not equivocate towards any client, whatever the network does. */
  lemma HonestRunIsHonest(env: Env, arrivals: seq<Vote>, r: ReplicaId, run: HonestRun)
    requires Genuine(env, arrivals, r, run)
    ensures Honest(env, arrivals, r, StreamOf(SignedBy(run)))
  {
    AcceptedAreAccepted(env, arrivals, r);
    forall v <- AcceptedFrom(env, arrivals, r)
      ensures v.transaction.Some? && ContentOf(v) == StreamOf(SignedBy(run))(v.sequenceNumber)
    {
      var u :| u in SignedBy(run) && SameMessage(u, v);
      SignedVoteIsInStream(run, u);
    }
  }

  /** Every vote a replica run sends passes the signature check of a client that holds the replica's key. */
  lemma SentVotesAreAccepted(env: Env, run: HonestRun, i: nat)
    requires run.replica.id in env.replicas
    requires forall m :: |run.replica.sign(m)| == SIGNATURE_SIZE && env.verify(env.replicas[run.replica.id], m, run.replica.sign(m))
    requires i < |Replicas.Execute(run.replica, run.actions).sent|
    requires var s := Replicas.Execute(run.replica, run.actions);
             Replicas.Direct(s.sent[i]) || Replicas.Readable(run.replica, s)
    ensures Accepts(env, Replicas.Execute(run.replica, run.actions).sent[i].vote)
  {
    Replicas.ExecuteKeepsInv(run.replica, run.actions);
    Replicas.SentVotesAreSigned(run.replica, run.actions, i);
    var v := Replicas.Execute(run.replica, run.actions).sent[i].vote;
    assert Replicas.ProperlySigned(run.replica, v);
  }

  ghost predicate HonestNetwork(env: Env, faulty: set<ReplicaId>, runs: map<ReplicaId, HonestRun>) {
    forall r: ReplicaId :: r in env.replicas && r !in faulty ==> r in runs && Unforgeable(env, r, runs[r])
  }

  /** What two clients accepted under the keys of the replicas outside `faulty` was signed in those replicas' runs. */
  ghost predicate GenuineNetwork(env: Env, a: seq<Vote>, b: seq<Vote>, faulty: set<ReplicaId>, runs: map<ReplicaId, HonestRun>) {
    forall r: ReplicaId :: r in env.replicas && r !in faulty ==>
      r in runs && Genuine(env, a, r, runs[r]) && Genuine(env, b, r, runs[r])
  }

  lemma HonestNetworkIsGenuine(env: Env, a: seq<Vote>, b: seq<Vote>, faulty: set<ReplicaId>, runs: map<ReplicaId, HonestRun>)
    requires HonestNetwork(env, faulty, runs)
    ensures GenuineNetwork(env, a, b, faulty, runs)
  {
    forall r: ReplicaId | r in env.replicas && r !in faulty
      ensures r in runs && Genuine(env, a, r, runs[r]) && Genuine(env, b, r, runs[r])
    {
      UnforgeableIsGenuine(env, a, r, runs[r]);
      UnforgeableIsGenuine(env, b, r, runs[r]);
    }
  }

  lemma GenuineNetworkIsOneNetwork(env: Env, a: seq<Vote>, b: seq<Vote>, faulty: set<ReplicaId>, runs: map<ReplicaId, HonestRun>)
    requires GenuineNetwork(env, a, b, faulty, runs)
    ensures OneNetwork(env, a, b, faulty, StreamsOf(runs))
  {
    forall r: ReplicaId | r in env.replicas && r !in faulty
      ensures Honest(env, a, r, StreamsOf(runs)(r)) && Honest(env, b, r, StreamsOf(runs)(r))
    {
      HonestRunIsHonest(env, a, r, runs[r]);
      HonestRunIsHonest(env, b, r, runs[r]);
    }
  }

  lemma HonestNetworkIsOneNetwork(env: Env, a: seq<Vote>, b: seq<Vote>, faulty: set<ReplicaId>, runs: map<ReplicaId, HonestRun>)
    requires HonestNetwork(env, faulty, runs)
    ensures OneNetwork(env, a, b, faulty, StreamsOf(runs))
  {
    HonestNetworkIsGenuine(env, a, b, faulty, runs);
    GenuineNetworkIsOneNetwork(env, a, b, faulty, runs);
  }

  /**
   Past-perfection of the pipeline. All but beta replicas run the code, under any interleaving of their tasks; the
   network may reorder, duplicate, drop or invent votes. If client B reads `rperf` before it has seen `tx`, no
   client A ever holds alpha or more timestamps for `tx` with a median below that.
   */
  lemma PipelinePastPerfection(env: Env, faulty: set<ReplicaId>, runs: map<ReplicaId, HonestRun>, a: seq<Vote>, b: seq<Vote>, tx: Transaction, alpha: nat, beta: nat)
    requires Params(alpha, beta, |env.replicas|) && |faulty| <= beta
    requires HonestNetwork(env, faulty, runs)
    requires tx !in Run(env, b).view.tsps
    requires |RowOf(Run(env, a).view, tx)| >= alpha
    ensures Middle(SortedValues(RowOf(Run(env, a).view, tx))) >= RPerf(Run(env, b).view, alpha, beta)
  {
    HonestNetworkIsOneNetwork(env, a, b, faulty, runs);
    PastPerfection(env, a, b, faulty, StreamsOf(runs), tx, alpha, beta);
  }

  /**
   The same for a read that runs beside B's updater in any interleaving: if its reply has no record of `tx`, the
   reply's `rperf` is below every such median.
   */
  lemma PipelineRepliesArePastPerfect(c: Reads.Config, faulty: set<ReplicaId>, runs: map<ReplicaId, HonestRun>, actions: seq<Reads.Action>, id: nat, a: seq<Vote>, b: seq<Vote>, tx: Transaction)
    requires Params(c.alpha, c.beta, |c.env.replicas|) && |faulty| <= c.beta
    requires HonestNetwork(c.env, faulty, runs) && Reads.UpdaterReceives(c, actions, b)
    requires var reader := Reads.ReaderAt(Reads.Execute(c, actions), id); reader.Replied? && !HasRecord(reader.data.t, tx)
    requires |RowOf(Run(c.env, a).view, tx)| >= c.alpha
    ensures Middle(SortedValues(RowOf(Run(c.env, a).view, tx))) >= Reads.ReaderAt(Reads.Execute(c, actions), id).data.rperf
  {
    HonestNetworkIsOneNetwork(c.env, a, b, faulty, runs);
    Reads.RepliesArePastPerfect(c, actions, id, a, b, faulty, StreamsOf(runs), tx);
  }

  /** And a record of such a reply with a vote for every replica encloses the median of every other client. */
  lemma PipelineCompleteRecordsBound(c: Reads.Config, faulty: set<ReplicaId>, runs: map<ReplicaId, HonestRun>, actions: seq<Reads.Action>, id: nat, i: nat, a: seq<Vote>, b: seq<Vote>)
    requires Params(c.alpha, c.beta, |c.env.replicas|) && |faulty| <= c.beta
    requires HonestNetwork(c.env, faulty, runs) && Reads.UpdaterReceives(c, actions, b)
    requires var reader := Reads.ReaderAt(Reads.Execute(c, actions), id);
             && reader.Replied? && i < |reader.data.t| && |reader.data.t[i].ctx| == |c.env.replicas|
             && |RowOf(Run(c.env, a).view, reader.data.t[i].tx)| >= c.alpha
    ensures var rec := Reads.ReaderAt(Reads.Execute(c, actions), id).data.t[i];
            rec.rmin <= Middle(SortedValues(RowOf(Run(c.env, a).view, rec.tx))) <= rec.rmax
  {
    HonestNetworkIsOneNetwork(c.env, a, b, faulty, runs);
    Reads.CompleteRecordsBound(c, actions, id, i, a, b, faulty, StreamsOf(runs));
  }

  /**
   The same network: the exact bounds of any client's read enclose the median of every other client, and the
   reported ones do once the read covers every replica.
   */
  lemma PipelineBounds(env: Env, faulty: set<ReplicaId>, runs: map<ReplicaId, HonestRun>, a: seq<Vote>, b: seq<Vote>, tx: Transaction, alpha: nat, beta: nat)
    requires Params(alpha, beta, |env.replicas|) && |faulty| <= beta
    requires HonestNetwork(env, faulty, runs)
    requires |RowOf(Run(env, a).view, tx)| >= alpha
    ensures var vb, median := Run(env, b).view, Middle(SortedValues(RowOf(Run(env, a).view, tx)));
            && BestLowerBound(vb, tx, alpha, beta) <= median
            && BestUpperBound(vb, tx, alpha, beta).Some? && median <= BestUpperBound(vb, tx, alpha, beta).value
            && (tx !in vb.tsps || vb.tsps[tx].Keys == env.replicas.Keys ==>
                  && RMax(vb, tx, alpha, beta).Some?
                  && RMin(vb, tx, alpha, beta) <= median <= RMax(vb, tx, alpha, beta).value)
  {
    HonestNetworkIsOneNetwork(env, a, b, faulty, runs);
    FilledBoundsEncloseEveryClient(env, a, b, faulty, StreamsOf(runs), tx, alpha, beta);
    var vb := Run(env, b).view;
    if tx !in vb.tsps || vb.tsps[tx].Keys == env.replicas.Keys {
      ReportedBoundsAreExactWhenComplete(vb, tx, alpha, beta);
    }
  }

  // --- A failed append silences a replica ---

  /** Every vote that the client accepted from `r` says what some vote says that the replica sent in its run. */
  ghost predicate Transmitted(env: Env, arrivals: seq<Vote>, r: ReplicaId, run: HonestRun) {
    forall v :: v in AcceptedFrom(env, arrivals, r) ==> exists i :: SentAs(run, i, v)
  }

  ghost predicate SentAs(run: HonestRun, i: nat, v: Vote) {
    var sent := Replicas.Execute(run.replica, run.actions).sent;
    i < |sent| && SameMessage(sent[i].vote, v)
  }

  lemma TransmittedIsGenuine(env: Env, arrivals: seq<Vote>, r: ReplicaId, run: HonestRun)
    requires Transmitted(env, arrivals, r, run) && Replicas.Readable(run.replica, Replicas.Execute(run.replica, run.actions))
    ensures Genuine(env, arrivals, r, run)
  {
    forall v | v in AcceptedFrom(env, arrivals, r) ensures exists u :: u in SignedBy(run) && SameMessage(u, v) {
      var i: nat :| SentAs(run, i, v);
      Replicas.SentVotesAreSigned(run.replica, run.actions, i);
    }
  }

  /** What was never received stops the reorder buffer. */
  lemma MissingNumberStops(env: Env, arrivals: seq<Vote>, r: ReplicaId, n: SequenceNumber)
    requires r in env.replicas && forall v :: v in AcceptedFrom(env, arrivals, r) ==> v.sequenceNumber != n
    ensures Run(env, arrivals).view.nextsn[r] <= n
  {
    ViewIsReorderBufferPerReplica(env, arrivals, r);
    Buffer.BufferHoldsTheGap(AcceptedFrom(env, arrivals, r));
    assert n !in Buffer.Received(AcceptedFrom(env, arrivals, r));
  }

  /**
   If the append of number `n` failed in a replica's run, then no client ever gets past it, however long the run goes
   on: what the client holds of the replica is made of votes below `n`.
   */
  lemma FailedAppendSilencesReplica(env: Env, arrivals: seq<Vote>, r: ReplicaId, run: HonestRun, n: SequenceNumber)
    requires r in env.replicas && Transmitted(env, arrivals, r, run)
    requires Replicas.Readable(run.replica, Replicas.Execute(run.replica, run.actions))
    requires n in Durability.FailedAppends(run.replica, run.actions)
    ensures Run(env, arrivals).view.nextsn[r] <= n
    ensures exists k: nat :: k <= n && ColumnOf(Run(env, arrivals).view, r) == Fold(StreamOf(SignedBy(run)), k)
  {
    forall v | v in AcceptedFrom(env, arrivals, r) ensures v.sequenceNumber != n {
      var i: nat :| SentAs(run, i, v);
      Durability.FailedAppendIsNeverSent(run.replica, run.actions, i);
    }
    MissingNumberStops(env, arrivals, r, n);
    TransmittedIsGenuine(env, arrivals, r, run);
    HonestRunIsHonest(env, arrivals, r, run);
    UpdaterRefinesInOrderApplication(env, arrivals, r, StreamOf(SignedBy(run)));
  }
}
