/** The client task that owns the view: a receive loop with an inner loop that drains the backlog. */
module PodDataUpdater {
  import opened Types
  import Spec = ClientView
  import Props = ViewProperties

  datatype Status = Continue | Bail

  /** Every backlogged vote is from the future. */
  ghost predicate BacklogAhead(view: Spec.View) {
    forall r: ReplicaId, k: SequenceNumber :: r in view.nextsn && k in Spec.BacklogOf(view, r) ==> k > view.nextsn[r]
  }

  /** Draining makes the backlog lie ahead again after one vote of replica `r` was taken. */
  lemma {:induction false} DrainPutsBacklogAhead(view: Spec.View, r: ReplicaId)
    requires r in view.nextsn && r in view.mrt
    requires forall k: SequenceNumber :: k in Spec.BacklogOf(view, r) ==> k >= view.nextsn[r]
    requires forall q: ReplicaId, k: SequenceNumber :: q != r && q in view.nextsn && k in Spec.BacklogOf(view, q) ==> k > view.nextsn[q]
    ensures BacklogAhead(Spec.DrainBacklog(view, r))
    decreases |Spec.BacklogOf(view, r)|
  {
    var pending := Spec.BacklogOf(view, r);
    var next := view.nextsn[r];
    if next in pending {
      var removed := view.(backlog := view.backlog[r := pending - {next}]);
      var after := Spec.TakeNext(removed, r, pending[next]);
      assert forall q: ReplicaId :: q != r ==> Spec.BacklogOf(after, q) == Spec.BacklogOf(view, q);
      DrainPutsBacklogAhead(after, r);
    }
  }

  lemma AdmitKeepsBacklogAhead(view: Spec.View, v: Vote)
    requires v.replicaId in view.nextsn && v.replicaId in view.mrt && BacklogAhead(view)
    ensures BacklogAhead(Spec.Admit(view, v))
  {
    var r, sn := v.replicaId, v.sequenceNumber;
    if sn == view.nextsn[r] {
      var after := Spec.TakeNext(view, r, v);
      assert forall q: ReplicaId :: Spec.BacklogOf(after, q) == Spec.BacklogOf(view, q);
      DrainPutsBacklogAhead(after, r);
    } else if sn > view.nextsn[r] {
      var after := Spec.Admit(view, v);
      assert forall q: ReplicaId :: q != r ==> Spec.BacklogOf(after, q) == Spec.BacklogOf(view, q);
    }
  }

  lemma LeastKey(keys: set<SequenceNumber>) returns (k: SequenceNumber)
    requires keys != {}
    ensures k in keys && forall j: SequenceNumber :: j in keys ==> k <= j
  {
    k :| k in keys;
    var rest := keys - {k};
    assert keys == rest + {k};
    if rest != {} {
      var least := LeastKey(rest);
      k := if least < k then least else k;
    }
  }

  class Updater {
    const env: Spec.Env
    var nextsn: map<ReplicaId, nat>
    var backlog: map<ReplicaId, map<SequenceNumber, Vote>>
    var mrt: Row
    var tsps: map<Transaction, Row>
    var tsVoteMsg: map<Timestamp, Vote>

    ghost function State(): Spec.View
      reads this
    {
      Spec.View(nextsn, backlog, mrt, tsps, tsVoteMsg)
    }

    ghost predicate Valid()
      reads this
    {
      Spec.Wf(env, State()) && BacklogAhead(State())
    }

    constructor (env: Spec.Env)
      ensures this.env == env && Valid() && State() == Spec.Initial(env)
    {
      this.env := env;
      nextsn, mrt := map r: ReplicaId | r in env.replicas :: 0, map r: ReplicaId | r in env.replicas :: 0;
      backlog, tsps, tsVoteMsg := map[], map[], map[];
    }

    /** Applies one vote to the evidence store, the most recent timestamps and the transaction rows, in this order. */
    method ProcessVote(r: ReplicaId, tx: Transaction, ts: Timestamp, v: Vote)
      requires r in mrt
      modifies this`tsVoteMsg, this`mrt, this`tsps
      ensures State() == Spec.ProcessVote(old(State()), r, tx, ts, v)
      ensures ts >= old(mrt[r]) ==> mrt == old(mrt)[r := ts]
      ensures ts >= old(mrt[r]) && tx.data != HEARTBEAT ==> tx in tsps && r in tsps[tx]
      ensures ts < old(mrt[r]) || tx.data == HEARTBEAT ==> tsps == old(tsps)
    {
      if ts < mrt[r] {
        Props.OutdatedVoteIsDropped(State(), r, tx, ts, v);
      } else {
        Props.CurrentVoteIsHeldIff(State(), r, tx, ts, v);
      }
      if ts !in tsVoteMsg {
        tsVoteMsg := tsVoteMsg[ts := v];
      }
      if ts < mrt[r] {
        return;
      }
      mrt := mrt[r := ts];
      if !IsHeartbeat(tx) {
        if tx !in tsps {
          tsps := tsps[tx := map[]];
        }
        if r in tsps[tx] && tsps[tx][r] != ts {
          assert tsps == old(tsps);
          return;
        }
        var row: Row := tsps[tx][r := ts];
        tsps := tsps[tx := row];
      }
    }

    /** The first key of an ordered map. */
    method FirstKey(pending: map<SequenceNumber, Vote>) returns (k: SequenceNumber)
      requires pending != map[]
      ensures k in pending && forall j: SequenceNumber :: j in pending ==> k <= j
    {
      ghost var least := LeastKey(pending.Keys);
      k :| k in pending && forall j: SequenceNumber :: j in pending ==> k <= j;
    }

    /** Applies backlogged votes of one replica while their sequence numbers are consecutive. */
    method DrainBacklog(r: ReplicaId)
      requires r in nextsn && r in mrt && r in backlog
      requires forall k: SequenceNumber :: k in backlog[r] ==> k >= nextsn[r]
      modifies this
      ensures State() == Spec.DrainBacklog(old(State()), r)
    {
      while backlog[r] != map[]
        invariant r in nextsn && r in mrt && r in backlog
        invariant forall k: SequenceNumber :: k in backlog[r] ==> k >= nextsn[r]
        invariant Spec.DrainBacklog(State(), r) == Spec.DrainBacklog(old(State()), r)
        decreases |backlog[r]|
      {
        var nextSeq := FirstKey(backlog[r]);
        if nextSeq == nextsn[r] {
          var backlogged := backlog[r][nextSeq];
          backlog := backlog[r := backlog[r] - {nextSeq}];
          nextsn := nextsn[r := nextsn[r] + 1];
          if backlogged.transaction.None? {
            continue;
          }
          ProcessVote(r, backlogged.transaction.value, backlogged.timestamp, backlogged);
        } else {
          break;
        }
      }
    }

    method StoreInBacklog(v: Vote)
      modifies this`backlog
      ensures State() == old(State()).(backlog := old(backlog)[v.replicaId := Spec.BacklogOf(old(State()), v.replicaId)[v.sequenceNumber := v]])
    {
      if v.replicaId !in backlog {
        backlog := backlog[v.replicaId := map[]];
      }
      var pending: map<SequenceNumber, Vote> := backlog[v.replicaId][v.sequenceNumber := v];
      backlog := backlog[v.replicaId := pending];
    }

    /** Discards an outdated vote, stores a future one, applies the expected one and what it unblocks. */
    method Admit(v: Vote)
      requires Valid() && v.replicaId in env.replicas && v.transaction.Some?
      modifies this
      ensures State() == Spec.Admit(old(State()), v)
    {
      var r := v.replicaId;
      if v.sequenceNumber < nextsn[r] {
        return;
      } else if v.sequenceNumber > nextsn[r] {
        StoreInBacklog(v);
        return;
      }
      nextsn := nextsn[r := nextsn[r] + 1];
      ProcessVote(r, v.transaction.value, v.timestamp, v);
      if r in backlog {
        assert backlog[r] == Spec.BacklogOf(old(State()), r);
        DrainBacklog(r);
      }
    }

    /** One turn of the receive loop. */
    method ReceiveVote(v: Vote) returns (status: Status)
      requires Valid()
      modifies this
      ensures Valid()
      ensures State() == Spec.Receive(env, old(State()), v).view
      ensures status == if Spec.Receive(env, old(State()), v).bailed then Bail else Continue
    {
      if v.transaction.None? {
        return Continue;
      }
      if v.replicaId !in env.replicas {
        return Bail;
      }
      if !Spec.VerifyVoteSignature(env, env.replicas[v.replicaId], v.transaction.value.data, v.timestamp, v.sequenceNumber, v.signature) {
        return Continue;
      }
      AdmitKeepsBacklogAhead(State(), v);
      Spec.ReceiveKeepsWf(env, State(), v);
      Admit(v);
      return Continue;
    }

    /** The whole loop: votes are taken off the channel until it closes or a vote names an unknown replica. */
    method Start(channel: seq<Vote>) returns (status: Status)
      requires Valid() && State() == Spec.Initial(env)
      modifies this
      ensures Valid()
      ensures State() == Spec.Run(env, channel).view
      ensures status == if Spec.Run(env, channel).bailed then Bail else Continue
    {
      var taken := 0;
      status := Continue;
      while taken < |channel|
        invariant taken <= |channel|
        invariant Valid() && status == Continue
        invariant Spec.Run(env, channel[..taken]) == Spec.RunState(State(), false)
      {
        assert channel[..taken + 1][..taken] == channel[..taken];
        status := ReceiveVote(channel[taken]);
        taken := taken + 1;
        if status == Bail {
          StaysBailed(env, channel[..taken], channel[taken..]);
          assert channel[..taken] + channel[taken..] == channel;
          return;
        }
      }
      assert channel[..taken] == channel;
    }
  }

  /** After an error nothing more changes. */
  lemma {:induction false} StaysBailed(env: Spec.Env, arrivals: seq<Vote>, later: seq<Vote>)
    requires Spec.Run(env, arrivals).bailed
    ensures Spec.Run(env, arrivals + later) == Spec.Run(env, arrivals)
  {
    if later == [] {
      assert arrivals + later == arrivals;
    } else {
      StaysBailed(env, arrivals, later[..|later| - 1]);
      assert (arrivals + later)[..|arrivals + later| - 1] == arrivals + later[..|later| - 1];
    }
  }
}
