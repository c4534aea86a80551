/** Runs made to order: replicas that sign a given stream of votes, and clients that receive the first votes of each. */
module PlayedRuns {
  import opened Types
  import opened VoteFold
  import opened MessageLayout
  import opened OrderStatistics
  import opened ClientView
  import opened ViewProperties
  import opened Evidence
  import Buffer = ReorderBuffer
  import Replicas = ReplicaRun
  import Tasks = ReplicaTasks

  ghost predicate ValidSignature(env: Env, r: ReplicaId, message: Bytes, signature: Bytes) {
    r in env.replicas && |signature| == SIGNATURE_SIZE && env.verify(env.replicas[r], message, signature)
  }

  ghost predicate CanSign(env: Env, r: ReplicaId, message: Bytes) {
    exists signature :: ValidSignature(env, r, message, signature)
  }

  /** Every replica can sign whatever it wants to. */
  ghost predicate Signable(env: Env) {
    forall r: ReplicaId, message: Bytes :: r in env.replicas ==> CanSign(env, r, message)
  }

  ghost function SignatureOn(env: Env, r: ReplicaId, message: Bytes): (signature: Bytes)
    ensures CanSign(env, r, message) ==> ValidSignature(env, r, message, signature)
  {
    if CanSign(env, r, message) then
      var signature :| ValidSignature(env, r, message, signature);
      signature
    else []
  }

  /** A replica with a key that the clients know. Nothing depends on its codec. */
  ghost function SignerOf(env: Env, r: ReplicaId): Replicas.Replica {
    Replicas.Replica(r, (message: Bytes) => SignatureOn(env, r, message), (rec: Replicas.VoteRecord) => [], (bytes: Bytes) => None)
  }

  // --- What a replica run signs and broadcasts ---

  /** One transaction for each vote of the stream. */
  function RequestsFor(str: Stream, n: nat): seq<Tasks.Turn> {
    seq(n, (i: nat) => Tasks.OnRequest(Tasks.Request(str(i).tx, str(i).ts, Tasks.Logged)))
  }

  /** The vote number `i` of a replica that votes as the stream says. */
  function VoteAt(rep: Replicas.Replica, str: Stream, i: SequenceNumber): Vote {
    Tasks.VoteUnder(rep, str(i).tx, str(i).ts, i)
  }

  ghost predicate Served(rep: Replicas.Replica, str: Stream, n: nat, s: Replicas.Node)
    requires n <= TWO_64
  {
    && s.nextsn == n && |s.sent| == n
    && forall i :: 0 <= i < n ==> s.sent[i] == Replicas.Sent(Replicas.FromLogVote, VoteAt(rep, str, i))
  }

  function ServeAll(rep: Replicas.Replica, str: Stream, n: nat): seq<Replicas.Action>
    requires n <= TWO_64
  {
    Tasks.TurnsSteps(rep, 0, RequestsFor(str, n))
  }

  /** The log-vote loop can be made to broadcast any stream of votes. */
  lemma ExecuteServes(rep: Replicas.Replica, str: Stream, n: nat)
    requires n <= TWO_64
    ensures Served(rep, str, n, Replicas.Execute(rep, ServeAll(rep, str, n)))
  {
    var turns := RequestsFor(str, n);
    Tasks.ExecuteTurns(rep, turns);
    Tasks.AllTurnsSend(rep, 0, turns);
    var sent := Tasks.SentOver(rep, 0, turns);
    forall i | 0 <= i < n ensures sent[i] == Replicas.Sent(Replicas.FromLogVote, VoteAt(rep, str, i)) {
      assert [sent[i]] == Tasks.SentOn(rep, i, turns[i]);
    }
  }

  // --- What a client makes of the first votes of each replica ---

  ghost predicate CanPlay(env: Env, r: ReplicaId, str: Stream, n: nat) {
    n <= TWO_64 && forall i: nat :: i < n ==> CanSign(env, r, MessageToSign(str(i).tx.data, str(i).ts, i))
  }

  /** The first `n` votes of a replica, in order. */
  ghost function Script(env: Env, r: ReplicaId, str: Stream, n: nat): (vs: seq<Vote>)
    requires n <= TWO_64
    ensures |vs| == n && forall i :: 0 <= i < n ==> vs[i] == VoteAt(SignerOf(env, r), str, i)
  {
    if n == 0 then [] else Script(env, r, str, n - 1) + [VoteAt(SignerOf(env, r), str, n - 1)]
  }

  lemma ScriptIsAccepted(env: Env, r: ReplicaId, str: Stream, n: nat)
    requires CanPlay(env, r, str, n)
    ensures forall v <- Script(env, r, str, n) :: Accepts(env, v) && v.replicaId == r
  {
    forall v <- Script(env, r, str, n) ensures Accepts(env, v) && v.replicaId == r {
      var i :| 0 <= i < n && v == VoteAt(SignerOf(env, r), str, i);
      assert CanSign(env, r, MessageToSign(str(i).tx.data, str(i).ts, i));
    }
  }

  lemma {:induction false} InOrderVotesAreFolded(vs: seq<Vote>, str: Stream)
    requires forall i :: 0 <= i < |vs| ==> vs[i].transaction.Some? && vs[i].sequenceNumber == i && ContentOf(vs[i]) == str(i)
    ensures Buffer.DeliverAll(vs) == Buffer.Slice(|vs|, map[], Fold(str, |vs|))
  {
    if vs != [] {
      InOrderVotesAreFolded(vs[..|vs| - 1], str);
    }
  }

  lemma {:induction false} AllAccepted(env: Env, arrivals: seq<Vote>, r: ReplicaId)
    requires forall v <- arrivals :: Accepts(env, v)
    ensures !Run(env, arrivals).bailed && AcceptedFrom(env, arrivals, r) == FromReplica(arrivals, r)
  {
    if arrivals != [] {
      AllAccepted(env, arrivals[..|arrivals| - 1], r);
      assert Accepts(env, arrivals[|arrivals| - 1]);
    }
  }

  /** Each replica in `order` sends as many votes of its stream as `counts` says. */
  ghost predicate Playable(env: Env, order: seq<ReplicaId>, streams: Streams, counts: map<ReplicaId, nat>) {
    forall r <- order :: r in counts && CanPlay(env, r, streams(r), counts[r])
  }

  ghost function PlayAll(env: Env, order: seq<ReplicaId>, streams: Streams, counts: map<ReplicaId, nat>): seq<Vote>
    requires Playable(env, order, streams, counts)
  {
    if order == [] then []
    else
      var r := order[|order| - 1];
      PlayAll(env, order[..|order| - 1], streams, counts) + Script(env, r, streams(r), counts[r])
  }

  lemma {:induction false} PlayedVotesAreAccepted(env: Env, order: seq<ReplicaId>, streams: Streams, counts: map<ReplicaId, nat>)
    requires Playable(env, order, streams, counts)
    ensures forall v <- PlayAll(env, order, streams, counts) :: Accepts(env, v)
  {
    if order != [] {
      var r := order[|order| - 1];
      PlayedVotesAreAccepted(env, order[..|order| - 1], streams, counts);
      ScriptIsAccepted(env, r, streams(r), counts[r]);
    }
  }

  lemma {:induction false} PlayedVotes(env: Env, order: seq<ReplicaId>, streams: Streams, counts: map<ReplicaId, nat>, r: ReplicaId)
    requires Playable(env, order, streams, counts) && NoDuplicates(order)
    ensures FromReplica(PlayAll(env, order, streams, counts), r) ==
            if r in order then Script(env, r, streams(r), counts[r]) else []
  {
    if order != [] {
      var front, q := order[..|order| - 1], order[|order| - 1];
      LastIsNew(order, r);
      PlayedVotes(env, front, streams, counts, r);
      var before, script := PlayAll(env, front, streams, counts), Script(env, q, streams(q), counts[q]);
      ScriptIsAccepted(env, q, streams(q), counts[q]);
      FromReplicaConcat(before, script, r);
      FromOneReplica(script, q, r);
      assert PlayAll(env, order, streams, counts) == before + script;
    }
  }

  lemma LastIsNew(order: seq<ReplicaId>, r: ReplicaId)
    requires order != [] && NoDuplicates(order)
    ensures var front, q := order[..|order| - 1], order[|order| - 1];
            NoDuplicates(front) && q !in front && (r in order <==> r in front || r == q)
  {
    assert order == order[..|order| - 1] + [order[|order| - 1]];
  }

  /** How many votes of `r` are played. */
  function PlayedCount(order: seq<ReplicaId>, counts: map<ReplicaId, nat>, r: ReplicaId): nat {
    if r in order && r in counts then counts[r] else 0
  }

  lemma PlayedAreAccepted(env: Env, order: seq<ReplicaId>, streams: Streams, counts: map<ReplicaId, nat>, r: ReplicaId)
    requires Playable(env, order, streams, counts) && NoDuplicates(order)
    ensures AcceptedFrom(env, PlayAll(env, order, streams, counts), r) ==
            if r in order then Script(env, r, streams(r), counts[r]) else []
  {
    PlayedVotes(env, order, streams, counts, r);
    PlayedVotesAreAccepted(env, order, streams, counts);
    AllAccepted(env, PlayAll(env, order, streams, counts), r);
  }

  /** The votes of a script make a column that is their stream folded. */
  lemma ScriptIsFolded(env: Env, r: ReplicaId, str: Stream, n: nat)
    requires n <= TWO_64
    ensures Buffer.FollowsStream(Script(env, r, str, n), str)
    ensures Buffer.DeliverAll(Script(env, r, str, n)).column == Fold(str, n)
  {
    InOrderVotesAreFolded(Script(env, r, str, n), str);
  }

  /** After the scripts a replica's column is its votes folded; a replica without a script has sent nothing. */
  lemma PlayedColumns(env: Env, order: seq<ReplicaId>, streams: Streams, counts: map<ReplicaId, nat>, r: ReplicaId)
    requires Playable(env, order, streams, counts) && NoDuplicates(order) && r in env.replicas
    ensures var b := PlayAll(env, order, streams, counts);
            && ColumnOf(Run(env, b).view, r) == Fold(streams(r), PlayedCount(order, counts, r))
            && Honest(env, b, r, streams(r))
  {
    PlayedAreAccepted(env, order, streams, counts, r);
    ViewIsReorderBufferPerReplica(env, PlayAll(env, order, streams, counts), r);
    if r in order {
      ScriptIsFolded(env, r, streams(r), counts[r]);
    }
  }
}
