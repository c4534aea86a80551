/** Which logged votes are durable, in every run of a replica, and what that says about the votes it sends. */
module LogDurability {
  import opened Types
  import opened ReplicaLog
  import opened LogReading
  import opened Steps = ReplicaRun
  import opened ReplicaTasks

  /** The numbers of the records in the log. */
  ghost function NumbersOf(records: seq<VoteRecord>): set<SequenceNumber> {
    set i | 0 <= i < |records| :: records[i].sn
  }

  /** The number of the record that is in the log while the sync of its append is outstanding. */
  function SyncOutstanding(s: Node): set<SequenceNumber> {
    if s.logTask.Appended? then {s.logTask.rec.sn} else {}
  }

  /** The numbers whose append reached the log but failed in its sync. */
  function FailedSyncs(rep: Replica, actions: seq<Steps.Action>): set<SequenceNumber> {
    if actions == [] then {}
    else
      var prefix := actions[..|actions| - 1];
      FailedSyncs(rep, prefix) +
      if actions[|actions| - 1].FailSync? then SyncOutstanding(Steps.Execute(rep, prefix)) else {}
  }

  /** The log's numbers fall into three groups: durable ones, failed ones, and the one whose sync is outstanding. */
  ghost predicate Partitioned(s: Node, failed: set<SequenceNumber>) {
    && s.durable + failed + SyncOutstanding(s) == NumbersOf(s.records)
    && s.durable !! failed && s.durable + failed !! SyncOutstanding(s)
    && (s.logTask.Appended? ==> s.records != [] && s.records[|s.records| - 1] == s.logTask.rec)
    && (s.logTask.Signed? || s.logTask.Appending? ==> s.logTask.rec.sn !in NumbersOf(s.records))
  }

  lemma NumbersSnoc(records: seq<VoteRecord>, rec: VoteRecord)
    ensures NumbersOf(records + [rec]) == NumbersOf(records) + {rec.sn}
  {
    var all := records + [rec];
    assert all[|records|] == rec;
    assert forall i :: 0 <= i < |records| ==> all[i] == records[i];
  }

  /** A number that was never signed for is not in the log. */
  lemma UnsignedIsNotLogged(rep: Replica, signed: set<Vote>, records: seq<VoteRecord>, sn: SequenceNumber)
    requires RecordsSigned(rep, signed, records) && forall v <- signed :: v.sequenceNumber != sn
    ensures sn !in NumbersOf(records)
  {
    forall i | 0 <= i < |records| ensures records[i].sn != sn {
      assert VoteOf(rep, records[i]) in signed;
    }
  }

  /** These steps change nothing that the partition speaks of. */
  lemma OtherStepsKeepPartition(rep: Replica, s: Node, a: Steps.Action, failed: set<SequenceNumber>)
    requires Partitioned(s, failed)
    requires !a.StampAndSign? && !a.WriteSome? && !a.Sync? && !a.FailSync?
    ensures Partitioned(Steps.Do(rep, s, a), failed)
  {
    var s' := Steps.Do(rep, s, a);
    assert s'.records == s.records && s'.durable == s.durable && SyncOutstanding(s') == SyncOutstanding(s);
  }

  lemma SyncKeepsPartition(rep: Replica, s: Node, failed: set<SequenceNumber>)
    requires Partitioned(s, failed)
    ensures Partitioned(Steps.Do(rep, s, Sync), failed)
    ensures Partitioned(Steps.Do(rep, s, FailSync), failed + SyncOutstanding(s))
  {
  }

  lemma WritingKeepsPartition(rep: Replica, s: Node, n: nat, failed: set<SequenceNumber>)
    requires Partitioned(s, failed)
    ensures Partitioned(Steps.Do(rep, s, WriteSome(n)), failed)
  {
    if s.logTask.Appending? {
      NumbersSnoc(s.records, s.logTask.rec);
    }
  }

  lemma SigningKeepsPartition(rep: Replica, s: Node, ts: Timestamp, failed: set<SequenceNumber>)
    requires NumbersInv(s) && RecordsSigned(rep, s.signed, s.records) && Partitioned(s, failed)
    ensures Partitioned(Steps.Do(rep, s, StampAndSign(ts)), failed)
  {
    if s.logTask.Numbered? {
      UnsignedIsNotLogged(rep, s.signed, s.records, s.logTask.sn);
    }
  }

  lemma DoKeepsPartition(rep: Replica, s: Node, a: Steps.Action, failed: set<SequenceNumber>)
    requires NodeInv(rep, s) && Partitioned(s, failed)
    ensures Partitioned(Steps.Do(rep, s, a), failed + if a.FailSync? then SyncOutstanding(s) else {})
  {
    assert failed + {} == failed;
    match a
    case StampAndSign(ts) => SigningKeepsPartition(rep, s, ts, failed);
    case WriteSome(n) => WritingKeepsPartition(rep, s, n, failed);
    case Sync => SyncKeepsPartition(rep, s, failed);
    case FailSync => SyncKeepsPartition(rep, s, failed);
    case _ => OtherStepsKeepPartition(rep, s, a, failed);
  }

  lemma {:induction false} NumbersArePartitioned(rep: Replica, actions: seq<Steps.Action>)
    ensures Partitioned(Steps.Execute(rep, actions), FailedSyncs(rep, actions))
  {
    if actions == [] {
    } else {
      var prefix := actions[..|actions| - 1];
      NumbersArePartitioned(rep, prefix);
      ExecuteKeepsInv(rep, prefix);
      DoKeepsPartition(rep, Steps.Execute(rep, prefix), actions[|actions| - 1], FailedSyncs(rep, prefix));
    }
  }

  /**
   Over every run, a vote in the log is durable unless its append has written the record and not synced it yet, or
   ended in a failed sync; then it is not.
   */
  lemma LoggedIsDurableIff(rep: Replica, actions: seq<Steps.Action>, v: Vote)
    requires InLog(rep, Steps.Execute(rep, actions).records, v)
    ensures v.sequenceNumber in Steps.Execute(rep, actions).durable <==>
            v.sequenceNumber !in SyncOutstanding(Steps.Execute(rep, actions)) + FailedSyncs(rep, actions)
  {
    var records := Steps.Execute(rep, actions).records;
    NumbersArePartitioned(rep, actions);
    var i :| 0 <= i < |records| && VoteOf(rep, records[i]) == v;
    assert records[i].sn in NumbersOf(records);
  }

  /**
   At the moment a vote is sent, it is a heartbeat or already in the log. A broadcast vote is durable there; a vote
   sent by catch-up is durable unless its sync is outstanding or has failed. Every vote names the replica, so that
   overwriting its replica id on the way out changes nothing.
   */
  lemma LoggedBeforeSent(rep: Replica, actions: seq<Steps.Action>, a: Steps.Action)
    requires a.SendNextRecord? ==> Readable(rep, Steps.Execute(rep, actions))
    requires Steps.Do(rep, Steps.Execute(rep, actions), a).sent != Steps.Execute(rep, actions).sent
    ensures var s, s' := Steps.Execute(rep, actions), Steps.Do(rep, Steps.Execute(rep, actions), a);
            exists x :: s'.sent == s.sent + [x] && Accounted(rep, s, x) && x.vote == x.vote.(replicaId := rep.id)
                     && (x.origin.FromCatchUp? ==>
                           (x.vote.sequenceNumber in s.durable <==>
                            x.vote.sequenceNumber !in SyncOutstanding(s) + FailedSyncs(rep, actions)))
  {
    var s, s' := Steps.Execute(rep, actions), Steps.Do(rep, Steps.Execute(rep, actions), a);
    ExecuteKeepsInv(rep, actions);
    if a.SendNextRecord? {
      ExecuteKeepsCatchUps(rep, actions);
    }
    DoSends(rep, s, a, a.SendNextRecord?);
    var x :| s'.sent == s.sent + [x] && (a.SendNextRecord? || Direct(x) ==> Justified(rep, s, x));
    OnlySendNextRecordCatchesUp(rep, s, a, x);
    assert ProperlySigned(rep, x.vote);
    if x.origin.FromCatchUp? {
      LoggedIsDurableIff(rep, actions, x.vote);
    }
  }

  lemma OnlySendNextRecordCatchesUp(rep: Replica, s: Node, a: Steps.Action, x: Sent)
    requires Steps.Do(rep, s, a).sent == s.sent + [x]
    ensures a.SendNextRecord? || Direct(x)
  {
    assert Steps.Do(rep, s, a).sent[|s.sent|] == x;
  }

  /** While no sync has failed, catch-up is ahead of the disk by at most the last record of the log. */
  lemma CatchUpIsOneRecordAhead(rep: Replica, actions: seq<Steps.Action>, i: nat)
    requires Readable(rep, Steps.Execute(rep, actions)) && FailedSyncs(rep, actions) == {}
    requires var s := Steps.Execute(rep, actions);
             i < |s.sent| && s.sent[i].origin.FromCatchUp? && s.sent[i].vote.sequenceNumber !in s.durable
    ensures var s := Steps.Execute(rep, actions);
            s.logTask.Appended? && s.records != [] && s.sent[i].vote == VoteOf(rep, s.records[|s.records| - 1])
  {
    var s := Steps.Execute(rep, actions);
    SentVotesAreSigned(rep, actions, i);
    LoggedIsDurableIff(rep, actions, s.sent[i].vote);
    NumbersArePartitioned(rep, actions);
    ExecuteKeepsInv(rep, actions);
    assert VoteOf(rep, s.logTask.rec) in s.signed;
  }

  // --- Numbers that are drawn and never sent ---

  /** The number that is given up when this step is taken. */
  function GivenUp(s: Node, a: Steps.Action): set<SequenceNumber> {
    if a.FailAppend? && s.logTask.Signed? then {s.logTask.rec.sn} else {}
  }

  /** The numbers whose append failed before the log had the record. */
  function FailedAppends(rep: Replica, actions: seq<Steps.Action>): set<SequenceNumber> {
    if actions == [] then {}
    else
      var prefix := actions[..|actions| - 1];
      FailedAppends(rep, prefix) + GivenUp(Steps.Execute(rep, prefix), actions[|actions| - 1])
  }

  ghost predicate WasSigned(signed: set<Vote>, sn: SequenceNumber) {
    exists v :: v in signed && v.sequenceNumber == sn
  }

  /** The voting loops have sent nothing under these numbers. */
  ghost predicate SentUnderOthers(sent: seq<Sent>, numbers: set<SequenceNumber>) {
    forall x <- sent :: Direct(x) ==> x.vote.sequenceNumber !in numbers
  }

  /** The numbers that the voting loops are about to use. */
  ghost function InUse(s: Node): set<SequenceNumber> {
    (if HasRecord(s.logTask) then {s.logTask.rec.sn} else {}) + if s.beatTask.BeatSigned? then {s.beatTask.vote.sequenceNumber} else {}
  }

  /** Numbers given up were signed for, are in no record and in nothing sent, and no loop is about to use them. */
  ghost predicate StayUnsent(s: Node, lost: set<SequenceNumber>) {
    && (forall n <- lost :: WasSigned(s.signed, n))
    && lost !! NumbersOf(s.records) && lost !! InUse(s)
    && SentUnderOthers(s.sent, lost)
    && (s.logTask.Signed? ==> SentUnderOthers(s.sent, {s.logTask.rec.sn}))
    && (HasRecord(s.logTask) && s.beatTask.BeatSigned? ==> s.logTask.rec.sn != s.beatTask.vote.sequenceNumber)
  }

  lemma FreshNumberIsUnsent(rep: Replica, s: Node, sn: SequenceNumber, lost: set<SequenceNumber>)
    requires NodeInv(rep, s) && Reserved(s, sn) && forall n <- lost :: WasSigned(s.signed, n)
    ensures sn !in lost && SentUnderOthers(s.sent, {sn})
  {
    forall x <- s.sent | Direct(x) ensures x.vote.sequenceNumber != sn {
      assert Justified(rep, s, x);
    }
  }

  lemma SigningKeepsUnsent(rep: Replica, s: Node, ts: Timestamp, lost: set<SequenceNumber>)
    requires NodeInv(rep, s) && StayUnsent(s, lost)
    ensures StayUnsent(Steps.Do(rep, s, StampAndSign(ts)), lost)
  {
    var s' := Steps.Do(rep, s, StampAndSign(ts));
    if s.logTask.Numbered? {
      FreshNumberIsUnsent(rep, s, s.logTask.sn, lost);
      forall n <- lost ensures WasSigned(s'.signed, n) {
        var v :| v in s.signed && v.sequenceNumber == n;
        assert v in s'.signed;
      }
    }
  }

  lemma BeatSigningKeepsUnsent(rep: Replica, s: Node, ts: Timestamp, lost: set<SequenceNumber>)
    requires NodeInv(rep, s) && StayUnsent(s, lost)
    ensures StayUnsent(Steps.Do(rep, s, BeatStampAndSign(ts)), lost)
  {
    var s' := Steps.Do(rep, s, BeatStampAndSign(ts));
    if s.beatTask.BeatNumbered? {
      FreshNumberIsUnsent(rep, s, s.beatTask.sn, lost);
      forall n <- lost ensures WasSigned(s'.signed, n) {
        var v :| v in s.signed && v.sequenceNumber == n;
        assert v in s'.signed;
      }
    }
  }

  lemma FailingKeepsUnsent(rep: Replica, s: Node, lost: set<SequenceNumber>, failed: set<SequenceNumber>)
    requires NodeInv(rep, s) && StayUnsent(s, lost) && Partitioned(s, failed)
    ensures StayUnsent(Steps.Do(rep, s, FailAppend), lost + GivenUp(s, FailAppend))
  {
    if s.logTask.Signed? {
      assert VoteOf(rep, s.logTask.rec) in s.signed;
      assert WasSigned(s.signed, s.logTask.rec.sn);
    }
  }

  lemma WritingKeepsUnsent(rep: Replica, s: Node, n: nat, lost: set<SequenceNumber>)
    requires StayUnsent(s, lost)
    ensures StayUnsent(Steps.Do(rep, s, WriteSome(n)), lost)
  {
    if s.logTask.Appending? {
      NumbersSnoc(s.records, s.logTask.rec);
    }
  }

  lemma SendingKeepsUnsent(rep: Replica, s: Node, a: Steps.Action, lost: set<SequenceNumber>)
    requires StayUnsent(s, lost) && (a.Broadcast? || a.BeatSend?)
    ensures StayUnsent(Steps.Do(rep, s, a), lost)
  {
  }

  lemma CatchingUpKeepsUnsent(rep: Replica, s: Node, c: nat, lost: set<SequenceNumber>)
    requires StayUnsent(s, lost)
    ensures StayUnsent(Steps.Do(rep, s, SendNextRecord(c)), lost)
  {
    var s' := Steps.Do(rep, s, SendNextRecord(c));
    forall x <- s'.sent | Direct(x) ensures x in s.sent {
    }
  }

  lemma OtherStepsKeepUnsent(rep: Replica, s: Node, a: Steps.Action, lost: set<SequenceNumber>)
    requires StayUnsent(s, lost)
    requires !a.StampAndSign? && !a.BeatStampAndSign? && !a.FailAppend? && !a.WriteSome? && !a.Broadcast? && !a.BeatSend? && !a.SendNextRecord?
    ensures StayUnsent(Steps.Do(rep, s, a), lost)
  {
    var s' := Steps.Do(rep, s, a);
    assert s'.signed == s.signed && s'.records == s.records && s'.sent == s.sent && InUse(s') <= InUse(s);
  }

  lemma DoKeepsUnsent(rep: Replica, s: Node, a: Steps.Action, lost: set<SequenceNumber>, failed: set<SequenceNumber>)
    requires NodeInv(rep, s) && StayUnsent(s, lost) && Partitioned(s, failed)
    ensures StayUnsent(Steps.Do(rep, s, a), lost + GivenUp(s, a))
  {
    assert lost + {} == lost;
    match a
    case StampAndSign(ts) => SigningKeepsUnsent(rep, s, ts, lost);
    case BeatStampAndSign(ts) => BeatSigningKeepsUnsent(rep, s, ts, lost);
    case FailAppend => FailingKeepsUnsent(rep, s, lost, failed);
    case WriteSome(n) => WritingKeepsUnsent(rep, s, n, lost);
    case Broadcast => SendingKeepsUnsent(rep, s, a, lost);
    case BeatSend => SendingKeepsUnsent(rep, s, a, lost);
    case SendNextRecord(c) => CatchingUpKeepsUnsent(rep, s, c, lost);
    case _ => OtherStepsKeepUnsent(rep, s, a, lost);
  }

  lemma {:induction false} FailedAppendsStayUnsent(rep: Replica, actions: seq<Steps.Action>)
    ensures StayUnsent(Steps.Execute(rep, actions), FailedAppends(rep, actions))
  {
    if actions == [] {
    } else {
      var prefix := actions[..|actions| - 1];
      FailedAppendsStayUnsent(rep, prefix);
      NumbersArePartitioned(rep, prefix);
      ExecuteKeepsInv(rep, prefix);
      DoKeepsUnsent(rep, Steps.Execute(rep, prefix), actions[|actions| - 1], FailedAppends(rep, prefix), FailedSyncs(rep, prefix));
    }
  }

  /** A number whose append failed is never sent under, not then and not later, as long as the log can be read back. */
  lemma FailedAppendIsNeverSent(rep: Replica, actions: seq<Steps.Action>, i: nat)
    requires i < |Steps.Execute(rep, actions).sent|
    requires Direct(Steps.Execute(rep, actions).sent[i]) || Readable(rep, Steps.Execute(rep, actions))
    ensures Steps.Execute(rep, actions).sent[i].vote.sequenceNumber !in FailedAppends(rep, actions)
  {
    var s := Steps.Execute(rep, actions);
    FailedAppendsStayUnsent(rep, actions);
    SentVotesAreSigned(rep, actions, i);
    if !Direct(s.sent[i]) {
      var k :| 0 <= k < |s.records| && VoteOf(rep, s.records[k]) == s.sent[i].vote;
      assert s.records[k].sn in NumbersOf(s.records);
    }
  }

  /** The first append of a run can be one that fails. */
  lemma AppendCanFail(rep: Replica, tx: Transaction, ts: Timestamp)
    ensures 0 in FailedAppends(rep, [Receive(tx), TakeNumber, StampAndSign(ts)] + [FailAppend])
  {
    var steps := [Receive(tx), TakeNumber, StampAndSign(ts)];
    ThreeSteps(rep, START, Receive(tx), TakeNumber, StampAndSign(ts), []);
    assert steps + [] == steps;
    assert Steps.Do(rep, Steps.Do(rep, Steps.Do(rep, START, Receive(tx)), TakeNumber), StampAndSign(ts)).logTask == Signed(SignedRecord(rep, tx, ts, 0));
    RunFromExtendsExecute(rep, [], steps);
    assert [] + steps == steps;
    assert (steps + [FailAppend])[..3] == steps;
  }

  // --- Runs in which catch-up sends a vote that is not durable ---

  /** One transaction is signed and written; its sync is still outstanding, or fails. Then a client connects. */
  function OutrunSteps(rep: Replica, tx: Transaction, ts: Timestamp, fails: bool): seq<Steps.Action> {
    WriteSteps(rep, tx, ts) + ((if fails then [FailSync] else []) + [Connect(0), MapLog(0), SendNextRecord(0)])
  }

  function WriteSteps(rep: Replica, tx: Transaction, ts: Timestamp): seq<Steps.Action> {
    [Receive(tx), TakeNumber, StampAndSign(ts)] + [StartAppend, WriteSome(|Frame(rep.encode(SignedRecord(rep, tx, ts, 0)))|)]
  }

  /** The first record signed, written and not synced. */
  function Written(rep: Replica, tx: Transaction, ts: Timestamp): Node {
    var rec := SignedRecord(rep, tx, ts, 0);
    var payload := rep.encode(rec);
    Node(1, Appended(rec), Resting, map[], LogFile([payload], None, 0, Frame(payload)), [rec], {}, {VoteOf(rep, rec)}, [])
  }

  lemma WriteStepsWrite(rep: Replica, tx: Transaction, ts: Timestamp)
    ensures RunFrom(rep, START, WriteSteps(rep, tx, ts)) == Written(rep, tx, ts)
  {
    var rec := SignedRecord(rep, tx, ts, 0);
    var payload := rep.encode(rec);
    var rest := [StartAppend, WriteSome(|Frame(payload)|)];
    ThreeSteps(rep, START, Receive(tx), TakeNumber, StampAndSign(ts), rest);
    var s3 := START.(nextsn := 1, logTask := Signed(rec), signed := {VoteOf(rep, rec)});
    assert Steps.Do(rep, Steps.Do(rep, Steps.Do(rep, START, Receive(tx)), TakeNumber), StampAndSign(ts)) == s3;
    WholeFrameWritten(EMPTY_LOG, payload);
    OneStep(rep, s3, StartAppend, [WriteSome(|Frame(payload)|)]);
    OneStep(rep, Steps.Do(rep, s3, StartAppend), WriteSome(|Frame(payload)|), []);
  }

  /** A client that connects is sent the one record of the log, synced or not. */
  lemma ClientCatchesUp(rep: Replica, s: Node, rec: VoteRecord)
    requires rep.decode(rep.encode(rec)) == Some(rec) && |rep.encode(rec)| < TWO_32
    requires s.catchUps == map[] && s.log.file == Frame(rep.encode(rec)) && s.sent == []
    ensures var s' := RunFrom(rep, s, [Connect(0), MapLog(0), SendNextRecord(0)]);
            && s'.sent == [Sent(FromCatchUp(0), VoteOf(rep, rec))]
            && s'.durable == s.durable && s'.records == s.records && s'.logTask == s.logTask
  {
    var file := s.log.file;
    ThreeSteps(rep, s, Connect(0), MapLog(0), SendNextRecord(0), []);
    assert [Connect(0), MapLog(0), SendNextRecord(0)] + [] == [Connect(0), MapLog(0), SendNextRecord(0)];
    FrameRoundTripIff(rep.encode(rec));
    assert ItemAt(file, 0).0 == Entry(rep.encode(rec));
  }

  /**
   Whatever the codec, as long as it gives this one record back: catch-up sends a vote whose append is not durable,
   because its sync is outstanding or, for good, because it failed.
   */
  lemma CatchUpCanOutrunSync(rep: Replica, tx: Transaction, ts: Timestamp, fails: bool)
    requires var rec := SignedRecord(rep, tx, ts, 0);
             rep.decode(rep.encode(rec)) == Some(rec) && |rep.encode(rec)| < TWO_32
    ensures var s := Steps.Execute(rep, OutrunSteps(rep, tx, ts, fails));
            && s.sent == [Sent(FromCatchUp(0), VoteOf(rep, SignedRecord(rep, tx, ts, 0)))]
            && s.durable == {}
            && FailedSyncs(rep, OutrunSteps(rep, tx, ts, fails)) == if fails then {0} else {}
  {
    var rec, steps := SignedRecord(rep, tx, ts, 0), OutrunSteps(rep, tx, ts, fails);
    var opening := [Connect(0), MapLog(0), SendNextRecord(0)];
    var rest := (if fails then [FailSync] else []) + opening;
    WriteStepsWrite(rep, tx, ts);
    RunFromConcat(rep, START, WriteSteps(rep, tx, ts), rest);
    var s := Written(rep, tx, ts);
    if fails {
      OneStep(rep, s, FailSync, opening);
      s := s.(logTask := Waiting);
    } else {
      assert rest == opening;
    }
    ClientCatchesUp(rep, s, rec);
    RunFromExtendsExecute(rep, [], steps);
    assert [] + steps == steps;
    NumbersArePartitioned(rep, steps);
    NumbersSnoc([], rec);
    assert [] + [rec] == [rec];
  }
}
