/**
 One run of a replica from an empty log: the log-vote task, the heartbeat task and the catch-up tasks of any
 number of connections, interleaved step by step. The first two draw from one sequence-number counter.
 */
module ReplicaRun {
  import opened Types
  import opened MessageLayout
  import opened ReplicaLog
  import opened LogReading

  datatype VoteRecord = VoteRecord(tx: Option<Transaction>, ts: Timestamp, sn: SequenceNumber, sig: Bytes)

  /** A replica's identity, its signing key, and the library codec of its log records. */
  datatype Replica = Replica(
    id: ReplicaId,
    sign: Bytes -> Bytes,
    encode: VoteRecord -> Bytes,
    decode: Bytes -> Option<VoteRecord>)

  ghost predicate CodecRoundTrips(rep: Replica) {
    forall rec :: rep.decode(rep.encode(rec)) == Some(rec)
  }

  function SignedRecord(rep: Replica, tx: Transaction, ts: Timestamp, sn: SequenceNumber): VoteRecord {
    VoteRecord(Some(tx), ts, sn, rep.sign(MessageToSign(tx.data, ts, sn)))
  }

  /** The vote that is broadcast for a record, and rebuilt from it when a client catches up. */
  function VoteOf(rep: Replica, rec: VoteRecord): Vote {
    Vote(rep.id, rec.ts, rec.sn, rec.sig, rec.tx)
  }

  /** The log-vote task: number, timestamp and sign, append, sync, broadcast. */
  datatype LogTask =
    | Waiting
    | Received(tx: Transaction)
    | Numbered(tx: Transaction, sn: SequenceNumber)
    | Signed(rec: VoteRecord)
    | Appending(rec: VoteRecord)
    | Appended(rec: VoteRecord)
    | Synced(rec: VoteRecord)

  datatype BeatTask = Resting | BeatNumbered(sn: SequenceNumber) | BeatSigned(vote: Vote)

  /** A connection's catch-up task: the file size is read, the file is mapped, then read until it stops. */
  datatype CatchUp = Opening(size: nat) | Catching(reader: Reader) | Finished

  datatype Origin = FromHeartbeat | FromLogVote | FromCatchUp(connection: nat)

  datatype Sent = Sent(origin: Origin, vote: Vote)

  /**
   `signed` collects every vote ever signed; `records` the log's entries before encoding; `durable` the sequence
   numbers whose append has returned; `sent` what was handed to clients.
   */
  datatype Node = Node(
    nextsn: nat,
    logTask: LogTask,
    beatTask: BeatTask,
    catchUps: map<nat, CatchUp>,
    log: LogFile,
    records: seq<VoteRecord>,
    durable: set<SequenceNumber>,
    signed: set<Vote>,
    sent: seq<Sent>)

  datatype Action =
    | Receive(tx: Transaction)
    | TakeNumber
    | StampAndSign(ts: Timestamp)
    | StartAppend
    | FailAppend
    | WriteSome(n: nat)
    | Sync
    | FailSync
    | Broadcast
    | BeatTakeNumber
    | BeatStampAndSign(ts: Timestamp)
    | BeatSend
    | Connect(connection: nat)
    | MapLog(connection: nat)
    | SendNextRecord(connection: nat)

  const HEARTBEAT_TX := Transaction(HEARTBEAT)

  const START := Node(0, Waiting, Resting, map[], EMPTY_LOG, [], {}, {}, [])

  /** A step of a task that is not at that point does nothing. */
  function Do(rep: Replica, s: Node, a: Action): Node {
    match a
    case Receive(tx) => if s.logTask.Waiting? then s.(logTask := Received(tx)) else s
    case TakeNumber =>
      if s.logTask.Received? && s.nextsn < TWO_64 then
        s.(logTask := Numbered(s.logTask.tx, s.nextsn), nextsn := s.nextsn + 1)
      else s
    case StampAndSign(ts) =>
      if s.logTask.Numbered? then
        var rec := SignedRecord(rep, s.logTask.tx, ts, s.logTask.sn);
        s.(logTask := Signed(rec), signed := s.signed + {VoteOf(rep, rec)})
      else s
    case StartAppend =>
      if s.logTask.Signed? then
        s.(logTask := Appending(s.logTask.rec), log := BeginAppend(s.log, rep.encode(s.logTask.rec)))
      else s
    case FailAppend => if s.logTask.Signed? then s.(logTask := Waiting) else s
    case WriteSome(n) =>
      if s.logTask.Appending? then
        var log := WriteBytes(s.log, n);
        if log.writing.Some? then s.(log := log)
        else s.(logTask := Appended(s.logTask.rec), log := log, records := s.records + [s.logTask.rec])
      else s
    case Sync =>
      if s.logTask.Appended? then s.(logTask := Synced(s.logTask.rec), durable := s.durable + {s.logTask.rec.sn}) else s
    case FailSync => if s.logTask.Appended? then s.(logTask := Waiting) else s
    case Broadcast =>
      if s.logTask.Synced? then Send(s.(logTask := Waiting), FromLogVote, VoteOf(rep, s.logTask.rec)) else s
    case BeatTakeNumber =>
      if s.beatTask.Resting? && s.nextsn < TWO_64 then s.(beatTask := BeatNumbered(s.nextsn), nextsn := s.nextsn + 1) else s
    case BeatStampAndSign(ts) =>
      if s.beatTask.BeatNumbered? then
        var vote := VoteOf(rep, SignedRecord(rep, HEARTBEAT_TX, ts, s.beatTask.sn));
        s.(beatTask := BeatSigned(vote), signed := s.signed + {vote})
      else s
    case BeatSend => if s.beatTask.BeatSigned? then Send(s.(beatTask := Resting), FromHeartbeat, s.beatTask.vote) else s
    case Connect(c) => if c in s.catchUps then s else s.(catchUps := s.catchUps[c := Opening(|s.log.file|)])
    case MapLog(c) =>
      if c in s.catchUps && s.catchUps[c].Opening? then
        s.(catchUps := s.catchUps[c := Catching(OpenReader(s.catchUps[c].size, s.log.file))])
      else s
    case SendNextRecord(c) => if c in s.catchUps && s.catchUps[c].Catching? then CatchUpOn(rep, s, c, s.catchUps[c].reader) else s
  }

  function Send(s: Node, origin: Origin, vote: Vote): Node {
    s.(sent := s.sent + [Sent(origin, vote)])
  }

  /** Catch-up stops at the end of the log as mapped, and at any error. */
  function CatchUpOn(rep: Replica, s: Node, c: nat, reader: Reader): Node {
    var (item, reader') := NextItem(reader);
    if item.Entry? && rep.decode(item.payload).Some? then
      Send(s.(catchUps := s.catchUps[c := Catching(reader')]), FromCatchUp(c), VoteOf(rep, rep.decode(item.payload).value))
    else s.(catchUps := s.catchUps[c := Finished])
  }

  function Execute(rep: Replica, actions: seq<Action>): Node {
    if actions == [] then START else Do(rep, Execute(rep, actions[..|actions| - 1]), actions[|actions| - 1])
  }

  // --- What every interleaving keeps ---

  /** A sequence number that was drawn but not used yet. */
  ghost predicate Reserved(s: Node, sn: nat) {
    sn < s.nextsn && forall v <- s.signed :: v.sequenceNumber != sn
  }

  /** No sequence number was ever signed for two different votes. */
  ghost predicate UniqueNumbers(signed: set<Vote>) {
    forall u, v :: u in signed && v in signed && u.sequenceNumber == v.sequenceNumber ==> u == v
  }

  ghost predicate NumbersInv(s: Node) {
    && UniqueNumbers(s.signed)
    && (forall v <- s.signed :: v.sequenceNumber < s.nextsn)
    && (s.logTask.Numbered? ==> Reserved(s, s.logTask.sn))
    && (s.beatTask.BeatNumbered? ==> Reserved(s, s.beatTask.sn))
    && (s.logTask.Numbered? && s.beatTask.BeatNumbered? ==> s.logTask.sn != s.beatTask.sn)
  }

  /** A signed vote names the replica, and its signature is over its own content. */
  ghost predicate ProperlySigned(rep: Replica, v: Vote) {
    && v.replicaId == rep.id && v.transaction.Some?
    && v.signature == rep.sign(MessageToSign(v.transaction.value.data, v.timestamp, v.sequenceNumber))
  }

  ghost predicate SignaturesInv(rep: Replica, signed: set<Vote>) {
    forall v <- signed :: ProperlySigned(rep, v)
  }

  ghost predicate RecordsSigned(rep: Replica, signed: set<Vote>, records: seq<VoteRecord>) {
    forall i :: 0 <= i < |records| ==> VoteOf(rep, records[i]) in signed
  }

  ghost predicate HasRecord(task: LogTask) {
    task.Signed? || task.Appending? || task.Appended? || task.Synced?
  }

  ghost predicate TasksSigned(rep: Replica, s: Node) {
    && (s.beatTask.BeatSigned? ==> s.beatTask.vote in s.signed && s.beatTask.vote.transaction == Some(HEARTBEAT_TX))
    && (HasRecord(s.logTask) ==> VoteOf(rep, s.logTask.rec) in s.signed)
  }

  ghost predicate InLog(rep: Replica, records: seq<VoteRecord>, v: Vote) {
    exists i :: 0 <= i < |records| && VoteOf(rep, records[i]) == v
  }

  /** What each vote's origin says about the log: heartbeats need no entry, broadcasts a durable one. */
  ghost predicate Accounted(rep: Replica, s: Node, x: Sent) {
    match x.origin
    case FromHeartbeat => x.vote.transaction == Some(HEARTBEAT_TX)
    case FromLogVote => InLog(rep, s.records, x.vote) && x.vote.sequenceNumber in s.durable
    case FromCatchUp(_) => InLog(rep, s.records, x.vote)
  }

  ghost predicate Justified(rep: Replica, s: Node, x: Sent) {
    x.vote in s.signed && Accounted(rep, s, x)
  }

  /** Sent by one of the two voting loops. */
  predicate Direct(x: Sent) {
    !x.origin.FromCatchUp?
  }

  /** Votes sent are justified: those of the voting loops only, or those of catch-up too. */
  ghost predicate SentInv(rep: Replica, s: Node, all: bool) {
    forall x <- s.sent :: all || Direct(x) ==> Justified(rep, s, x)
  }

  ghost predicate EntriesInv(rep: Replica, entries: seq<Bytes>, records: seq<VoteRecord>) {
    |entries| == |records| && forall i :: 0 <= i < |records| ==> entries[i] == rep.encode(records[i])
  }

  ghost predicate AppendInv(rep: Replica, s: Node) {
    && (if s.logTask.Appending? then s.log.writing == Some(rep.encode(s.logTask.rec)) else s.log.writing.None?)
    && (s.logTask.Appended? || s.logTask.Synced? ==> InLog(rep, s.records, VoteOf(rep, s.logTask.rec)))
    && (s.logTask.Synced? ==> s.logTask.rec.sn in s.durable)
  }

  ghost predicate CatchUpInv(log: LogFile, c: CatchUp) {
    match c
    case Opening(size) => size <= |log.file|
    case Catching(reader) => ReaderInv(log, reader)
    case Finished => true
  }

  /** What every interleaving keeps, whatever the codec does and however long the records are. */
  ghost predicate NodeInv(rep: Replica, s: Node) {
    && NumbersInv(s)
    && SignaturesInv(rep, s.signed) && RecordsSigned(rep, s.signed, s.records) && TasksSigned(rep, s)
    && BytesInv(s.log) && EntriesInv(rep, s.log.entries, s.records) && AppendInv(rep, s)
    && SentInv(rep, s, false)
  }

  /** The log can be read back: the codec round-trips and every record appended fits the 32-bit length prefix. */
  ghost predicate Readable(rep: Replica, s: Node) {
    CodecRoundTrips(rep) && Fit(Intended(s.log))
  }

  /** What every interleaving keeps in addition while the log can be read back. */
  ghost predicate CatchUpsInv(rep: Replica, s: Node) {
    SentInv(rep, s, true) && forall c <- s.catchUps :: CatchUpInv(s.log, s.catchUps[c])
  }

  lemma DoKeepsNumbers(rep: Replica, s: Node, a: Action)
    requires NumbersInv(s)
    ensures NumbersInv(Do(rep, s, a))
    ensures s.signed <= Do(rep, s, a).signed
  {
  }

  lemma DoKeepsSignatures(rep: Replica, s: Node, a: Action)
    requires SignaturesInv(rep, s.signed)
    ensures SignaturesInv(rep, Do(rep, s, a).signed)
  {
  }

  lemma OnlyAppendingWrites(rep: Replica, s: Node, a: Action)
    requires !a.StartAppend? && !a.WriteSome?
    ensures Do(rep, s, a).log == s.log && Do(rep, s, a).records == s.records && s.durable <= Do(rep, s, a).durable
  {
  }

  lemma WritingKeepsFile(rep: Replica, s: Node, n: nat)
    requires BytesInv(s.log) && AppendInv(rep, s) && EntriesInv(rep, s.log.entries, s.records) && s.logTask.Appending?
    ensures var s' := Do(rep, s, WriteSome(n));
            && BytesInv(s'.log) && Intended(s'.log) == Intended(s.log)
            && s.log.file <= s'.log.file && s.log.entries <= s'.log.entries
            && EntriesInv(rep, s'.log.entries, s'.records) && s.records <= s'.records && s.durable == s'.durable
  {
    WriteBytesKeepsInv(s.log, n);
  }

  /** Entries, durability and bytes are only ever added. */
  lemma DoKeepsFile(rep: Replica, s: Node, a: Action)
    requires BytesInv(s.log) && AppendInv(rep, s) && EntriesInv(rep, s.log.entries, s.records)
    ensures var s' := Do(rep, s, a);
            && BytesInv(s'.log) && Intended(s.log) <= Intended(s'.log)
            && s.log.file <= s'.log.file && s.log.entries <= s'.log.entries
            && EntriesInv(rep, s'.log.entries, s'.records)
            && s.records <= s'.records && s.durable <= s'.durable
  {
    if a.WriteSome? {
      if s.logTask.Appending? {
        WritingKeepsFile(rep, s, a.n);
      }
    } else if a.StartAppend? {
      if s.logTask.Signed? {
        BeginAppendKeepsInv(s.log, rep.encode(s.logTask.rec));
      }
    } else {
      OnlyAppendingWrites(rep, s, a);
    }
  }

  lemma DoKeepsAppend(rep: Replica, s: Node, a: Action)
    requires AppendInv(rep, s) && BytesInv(s.log)
    ensures AppendInv(rep, Do(rep, s, a))
  {
    if a.WriteSome? && s.logTask.Appending? && WriteBytes(s.log, a.n).writing.None? {
      assert Do(rep, s, a).records[|s.records|] == s.logTask.rec;
    }
  }

  lemma InLogGrows(rep: Replica, records: seq<VoteRecord>, records': seq<VoteRecord>, v: Vote)
    requires InLog(rep, records, v) && records <= records'
    ensures InLog(rep, records', v)
  {
    var i :| 0 <= i < |records| && VoteOf(rep, records[i]) == v;
    assert records'[i] == records[i];
  }

  lemma InLogIsSigned(rep: Replica, signed: set<Vote>, records: seq<VoteRecord>, v: Vote)
    requires RecordsSigned(rep, signed, records) && InLog(rep, records, v)
    ensures v in signed
  {
  }

  /** What a catch-up task reads next is the next record of the log. */
  lemma NextRecordIsLogged(rep: Replica, s: Node, reader: Reader)
    requires Readable(rep, s) && BytesInv(s.log) && EntriesInv(rep, s.log.entries, s.records) && ReaderInv(s.log, reader)
    ensures var (item, reader') := NextItem(reader);
            && ReaderInv(s.log, reader')
            && (item.Entry? ==>
                  && |reader.yielded| < |s.records| && |reader'.yielded| == |reader.yielded| + 1
                  && rep.decode(item.payload) == Some(s.records[|reader.yielded|]))
  {
    NextKeepsInv(s.log, reader);
    var i := |reader.yielded|;
    if NextItem(reader).0.Entry? {
      assert rep.decode(rep.encode(s.records[i])) == Some(s.records[i]);
    }
  }

  /** `s'` has sent nothing more than `s`, or one vote that `s` justifies. */
  ghost predicate SendsJustified(rep: Replica, s: Node, s': Node, all: bool) {
    || s'.sent == s.sent
    || exists x :: s'.sent == s.sent + [x] && (all || Direct(x) ==> Justified(rep, s, x))
  }

  lemma CatchUpSends(rep: Replica, s: Node, c: nat)
    requires Readable(rep, s) && BytesInv(s.log) && EntriesInv(rep, s.log.entries, s.records)
    requires RecordsSigned(rep, s.signed, s.records)
    requires c in s.catchUps && s.catchUps[c].Catching? && ReaderInv(s.log, s.catchUps[c].reader)
    ensures SendsJustified(rep, s, CatchUpOn(rep, s, c, s.catchUps[c].reader), true)
  {
    var reader := s.catchUps[c].reader;
    NextRecordIsLogged(rep, s, reader);
    if NextItem(reader).0.Entry? {
      var v := VoteOf(rep, s.records[|reader.yielded|]);
      assert InLog(rep, s.records, v);
      InLogIsSigned(rep, s.signed, s.records, v);
      assert CatchUpOn(rep, s, c, reader).sent == s.sent + [Sent(FromCatchUp(c), v)];
    }
  }

  lemma TasksSend(rep: Replica, s: Node, a: Action)
    requires TasksSigned(rep, s) && AppendInv(rep, s) && (a.Broadcast? || a.BeatSend?)
    ensures SendsJustified(rep, s, Do(rep, s, a), true)
  {
    if a.Broadcast? && s.logTask.Synced? {
      assert Do(rep, s, a).sent == s.sent + [Sent(FromLogVote, VoteOf(rep, s.logTask.rec))];
    } else if a.BeatSend? && s.beatTask.BeatSigned? {
      assert Do(rep, s, a).sent == s.sent + [Sent(FromHeartbeat, s.beatTask.vote)];
    }
  }

  /** Only three kinds of step send anything. */
  lemma QuietSteps(rep: Replica, s: Node, a: Action)
    requires !a.SendNextRecord? && !a.Broadcast? && !a.BeatSend?
    ensures Do(rep, s, a).sent == s.sent
  {
  }

  lemma SendNextRecordSends(rep: Replica, s: Node, c: nat, all: bool)
    requires BytesInv(s.log) && EntriesInv(rep, s.log.entries, s.records) && RecordsSigned(rep, s.signed, s.records)
    requires all ==> Readable(rep, s) && (c in s.catchUps ==> CatchUpInv(s.log, s.catchUps[c]))
    ensures SendsJustified(rep, s, Do(rep, s, SendNextRecord(c)), all)
  {
    var s' := Do(rep, s, SendNextRecord(c));
    if c in s.catchUps && s.catchUps[c].Catching? {
      if all {
        CatchUpSends(rep, s, c);
      } else if s'.sent != s.sent {
        var x := s'.sent[|s.sent|];
        assert s'.sent == s.sent + [x] && !Direct(x);
      }
    }
  }

  /** Whatever a step sends is justified by the log as it was, and was signed before. */
  lemma DoSends(rep: Replica, s: Node, a: Action, all: bool)
    requires NodeInv(rep, s) && (all ==> Readable(rep, s) && CatchUpsInv(rep, s))
    ensures SendsJustified(rep, s, Do(rep, s, a), all)
  {
    if a.SendNextRecord? {
      SendNextRecordSends(rep, s, a.connection, all);
    } else if a.Broadcast? || a.BeatSend? {
      TasksSend(rep, s, a);
    } else {
      QuietSteps(rep, s, a);
    }
  }

  lemma DoKeepsTasksSigned(rep: Replica, s: Node, a: Action)
    requires NumbersInv(s) && TasksSigned(rep, s)
    ensures TasksSigned(rep, Do(rep, s, a))
  {
    DoKeepsNumbers(rep, s, a);
  }

  lemma DoKeepsRecordsSigned(rep: Replica, s: Node, a: Action)
    requires NumbersInv(s) && TasksSigned(rep, s) && RecordsSigned(rep, s.signed, s.records)
    ensures RecordsSigned(rep, Do(rep, s, a).signed, Do(rep, s, a).records)
  {
    DoKeepsNumbers(rep, s, a);
    var s' := Do(rep, s, a);
    forall i | 0 <= i < |s'.records| ensures VoteOf(rep, s'.records[i]) in s'.signed {
      if i < |s.records| {
        assert s'.records[i] == s.records[i];
        assert VoteOf(rep, s.records[i]) in s.signed;
      } else {
        assert s'.records[i] == s.logTask.rec;
      }
    }
  }

  lemma JustifiedGrows(rep: Replica, s: Node, s': Node, x: Sent)
    requires Justified(rep, s, x) && s.signed <= s'.signed && s.records <= s'.records && s.durable <= s'.durable
    ensures Justified(rep, s', x)
  {
    if !x.origin.FromHeartbeat? {
      InLogGrows(rep, s.records, s'.records, x.vote);
    }
  }

  lemma DoKeepsSent(rep: Replica, s: Node, a: Action, all: bool)
    requires NodeInv(rep, s) && SentInv(rep, s, all) && (all ==> Readable(rep, s) && CatchUpsInv(rep, s))
    ensures SentInv(rep, Do(rep, s, a), all)
  {
    var s' := Do(rep, s, a);
    DoKeepsNumbers(rep, s, a);
    DoKeepsFile(rep, s, a);
    DoSends(rep, s, a, all);
    forall i | 0 <= i < |s'.sent| && (all || Direct(s'.sent[i])) ensures Justified(rep, s', s'.sent[i]) {
      if i < |s.sent| {
        assert s'.sent[i] == s.sent[i];
        assert Justified(rep, s, s.sent[i]);
      }
      JustifiedGrows(rep, s, s', s'.sent[i]);
    }
  }

  lemma CatchUpSurvives(log: LogFile, log': LogFile, c: CatchUp)
    requires CatchUpInv(log, c) && log.file <= log'.file && log.entries <= log'.entries
    ensures CatchUpInv(log', c)
  {
    if c.Catching? {
      ReaderSurvivesWriting(log, log', c.reader);
    }
  }

  /** A step of another task leaves a connection's catch-up task and what it has sent alone. */
  lemma OtherStepsLeaveCatchUp(rep: Replica, s: Node, a: Action, c: nat)
    requires a != Connect(c) && a != MapLog(c) && a != SendNextRecord(c)
    ensures var s' := Do(rep, s, a);
            && (c in s'.catchUps <==> c in s.catchUps) && (c in s.catchUps ==> s'.catchUps[c] == s.catchUps[c])
            && CaughtUp(s'.sent, c) == CaughtUp(s.sent, c)
  {
    var s' := Do(rep, s, a);
    assert s'.sent != s.sent ==> s'.sent[..|s.sent|] == s.sent;
  }

  lemma OwnStepKeepsCatchUp(rep: Replica, s: Node, a: Action, c: nat)
    requires FileInv(s.log) && (c in s.catchUps ==> CatchUpInv(s.log, s.catchUps[c]))
    requires a == Connect(c) || a == MapLog(c) || a == SendNextRecord(c)
    ensures Do(rep, s, a).log == s.log
    ensures c in Do(rep, s, a).catchUps ==> CatchUpInv(s.log, Do(rep, s, a).catchUps[c])
  {
    if c in s.catchUps {
      assert CatchUpInv(s.log, s.catchUps[c]);
      if a.SendNextRecord? && s.catchUps[c].Catching? {
        NextKeepsInv(s.log, s.catchUps[c].reader);
      } else if a.MapLog? && s.catchUps[c].Opening? {
        OpenKeepsInv(s.log, s.catchUps[c].size);
      }
    }
  }

  lemma DoKeepsCatchUps(rep: Replica, s: Node, a: Action)
    requires NodeInv(rep, s) && Readable(rep, s) && CatchUpsInv(rep, s)
    ensures forall c <- Do(rep, s, a).catchUps :: CatchUpInv(Do(rep, s, a).log, Do(rep, s, a).catchUps[c])
  {
    var s' := Do(rep, s, a);
    DoKeepsFile(rep, s, a);
    forall c <- s'.catchUps ensures CatchUpInv(s'.log, s'.catchUps[c]) {
      if a == Connect(c) || a == MapLog(c) || a == SendNextRecord(c) {
        OwnStepKeepsCatchUp(rep, s, a, c);
      } else {
        OtherStepsLeaveCatchUp(rep, s, a, c);
        CatchUpSurvives(s.log, s'.log, s.catchUps[c]);
      }
    }
  }

  lemma DoKeepsInv(rep: Replica, s: Node, a: Action)
    requires NodeInv(rep, s)
    ensures NodeInv(rep, Do(rep, s, a))
  {
    DoKeepsNumbers(rep, s, a);
    DoKeepsSignatures(rep, s, a);
    DoKeepsFile(rep, s, a);
    DoKeepsAppend(rep, s, a);
    DoKeepsTasksSigned(rep, s, a);
    DoKeepsRecordsSigned(rep, s, a);
    DoKeepsSent(rep, s, a, false);
  }

  lemma {:induction false} ExecuteKeepsInv(rep: Replica, actions: seq<Action>)
    ensures NodeInv(rep, Execute(rep, actions))
  {
    if actions == [] {
    } else {
      ExecuteKeepsInv(rep, actions[..|actions| - 1]);
      DoKeepsInv(rep, Execute(rep, actions[..|actions| - 1]), actions[|actions| - 1]);
    }
  }

  /** A log that can be read back could be read back all along. */
  lemma ReadableBefore(rep: Replica, s: Node, a: Action)
    requires NodeInv(rep, s) && Readable(rep, Do(rep, s, a))
    ensures Readable(rep, s)
  {
    DoKeepsFile(rep, s, a);
    var part, whole := Intended(s.log), Intended(Do(rep, s, a).log);
    assert forall e :: e in part ==> e in whole;
  }

  lemma {:induction false} ExecuteKeepsCatchUps(rep: Replica, actions: seq<Action>)
    requires Readable(rep, Execute(rep, actions))
    ensures CatchUpsInv(rep, Execute(rep, actions))
  {
    if actions == [] {
    } else {
      var prefix, a := actions[..|actions| - 1], actions[|actions| - 1];
      var s := Execute(rep, prefix);
      ExecuteKeepsInv(rep, prefix);
      ReadableBefore(rep, s, a);
      ExecuteKeepsCatchUps(rep, prefix);
      DoKeepsSent(rep, s, a, true);
      DoKeepsCatchUps(rep, s, a);
    }
  }

  // --- The replica's promises to its clients ---

  /** The two tasks never sign different votes under one number. */
  lemma {:induction false} SignedNumbersAreUnique(rep: Replica, actions: seq<Action>)
    ensures NumbersInv(Execute(rep, actions))
  {
    if actions == [] {
    } else {
      SignedNumbersAreUnique(rep, actions[..|actions| - 1]);
      DoKeepsNumbers(rep, Execute(rep, actions[..|actions| - 1]), actions[|actions| - 1]);
    }
  }

  /** What a run has sent was signed in it: always by the voting loops, and by catch-up if the log can be read back. */
  lemma SentVotesAreSigned(rep: Replica, actions: seq<Action>, i: nat)
    requires i < |Execute(rep, actions).sent|
    requires Direct(Execute(rep, actions).sent[i]) || Readable(rep, Execute(rep, actions))
    ensures Justified(rep, Execute(rep, actions), Execute(rep, actions).sent[i])
  {
    ExecuteKeepsInv(rep, actions);
    if !Direct(Execute(rep, actions).sent[i]) {
      ExecuteKeepsCatchUps(rep, actions);
    }
  }

  /** No two different votes ever leave a replica under one sequence number, whoever sends them and however often. */
  lemma SameNumberSameVote(rep: Replica, actions: seq<Action>, i: nat, j: nat)
    requires var sent := Execute(rep, actions).sent;
             && i < |sent| && j < |sent| && sent[i].vote.sequenceNumber == sent[j].vote.sequenceNumber
             && ((Direct(sent[i]) && Direct(sent[j])) || Readable(rep, Execute(rep, actions)))
    ensures Execute(rep, actions).sent[i].vote == Execute(rep, actions).sent[j].vote
  {
    ExecuteKeepsInv(rep, actions);
    SentVotesAreSigned(rep, actions, i);
    SentVotesAreSigned(rep, actions, j);
  }

  /** The votes a connection's catch-up task has sent. */
  function CaughtUp(sent: seq<Sent>, c: nat): seq<Vote> {
    if sent == [] then []
    else
      var before, x := CaughtUp(sent[..|sent| - 1], c), sent[|sent| - 1];
      if x.origin == FromCatchUp(c) then before + [x.vote] else before
  }

  function VotesOf(rep: Replica, records: seq<VoteRecord>): seq<Vote> {
    seq(|records|, i requires 0 <= i < |records| => VoteOf(rep, records[i]))
  }

  ghost predicate SentPrefix(rep: Replica, s: Node, c: nat, k: nat) {
    k <= |s.records| && CaughtUp(s.sent, c) == VotesOf(rep, s.records[..k])
  }

  /** How many records a connection has caught up on. */
  ghost predicate Progress(rep: Replica, s: Node, c: nat) {
    if c !in s.catchUps || s.catchUps[c].Opening? then SentPrefix(rep, s, c, 0)
    else if s.catchUps[c].Catching? then SentPrefix(rep, s, c, |s.catchUps[c].reader.yielded|)
    else exists k: nat :: SentPrefix(rep, s, c, k)
  }

  lemma SentPrefixSurvives(rep: Replica, s: Node, s': Node, c: nat, k: nat)
    requires SentPrefix(rep, s, c, k) && s.records <= s'.records && CaughtUp(s'.sent, c) == CaughtUp(s.sent, c)
    ensures SentPrefix(rep, s', c, k)
  {
    assert s'.records[..k] == s.records[..k];
  }

  lemma SentOneMore(rep: Replica, s: Node, s': Node, c: nat, i: nat)
    requires SentPrefix(rep, s, c, i) && i < |s.records| && s'.records == s.records
    requires s'.sent == s.sent + [Sent(FromCatchUp(c), VoteOf(rep, s.records[i]))]
    ensures SentPrefix(rep, s', c, i + 1)
  {
    CaughtUpSnoc(s.sent, Sent(FromCatchUp(c), VoteOf(rep, s.records[i])), c);
    VotesOfSnoc(rep, s.records, i);
  }

  lemma SendingKeepsProgress(rep: Replica, s: Node, c: nat)
    requires Readable(rep, s) && BytesInv(s.log) && EntriesInv(rep, s.log.entries, s.records)
    requires c in s.catchUps && s.catchUps[c].Catching? && ReaderInv(s.log, s.catchUps[c].reader)
    requires SentPrefix(rep, s, c, |s.catchUps[c].reader.yielded|)
    ensures Progress(rep, CatchUpOn(rep, s, c, s.catchUps[c].reader), c)
  {
    var reader := s.catchUps[c].reader;
    var s' := CatchUpOn(rep, s, c, reader);
    NextRecordIsLogged(rep, s, reader);
    if NextItem(reader).0.Entry? {
      SentOneMore(rep, s, s', c, |reader.yielded|);
    } else {
      SentPrefixSurvives(rep, s, s', c, |reader.yielded|);
    }
  }

  lemma VotesOfSnoc(rep: Replica, records: seq<VoteRecord>, i: nat)
    requires i < |records|
    ensures VotesOf(rep, records[..i + 1]) == VotesOf(rep, records[..i]) + [VoteOf(rep, records[i])]
  {
  }

  lemma CaughtUpSnoc(sent: seq<Sent>, x: Sent, c: nat)
    ensures CaughtUp(sent + [x], c) == if x.origin == FromCatchUp(c) then CaughtUp(sent, c) + [x.vote] else CaughtUp(sent, c)
  {
    assert (sent + [x])[..|sent|] == sent;
  }

  /** Connecting and mapping send nothing yet. */
  lemma OpeningKeepsProgress(rep: Replica, s: Node, a: Action, c: nat)
    requires Progress(rep, s, c) && (a == Connect(c) || a == MapLog(c))
    ensures Progress(rep, Do(rep, s, a), c)
  {
    var s' := Do(rep, s, a);
    assert s'.sent == s.sent && s'.records == s.records;
    assert SentPrefix(rep, s, c, 0) ==> SentPrefix(rep, s', c, 0);
  }

  lemma SendNextKeepsProgress(rep: Replica, s: Node, c: nat)
    requires Readable(rep, s) && BytesInv(s.log) && EntriesInv(rep, s.log.entries, s.records)
    requires Progress(rep, s, c) && (c in s.catchUps ==> CatchUpInv(s.log, s.catchUps[c]))
    ensures Progress(rep, Do(rep, s, SendNextRecord(c)), c)
  {
    if c in s.catchUps && s.catchUps[c].Catching? {
      SendingKeepsProgress(rep, s, c);
      assert Do(rep, s, SendNextRecord(c)) == CatchUpOn(rep, s, c, s.catchUps[c].reader);
    } else {
      assert Do(rep, s, SendNextRecord(c)) == s;
    }
  }

  lemma DoKeepsProgress(rep: Replica, s: Node, a: Action, c: nat)
    requires NodeInv(rep, s) && Readable(rep, s) && CatchUpsInv(rep, s) && Progress(rep, s, c)
    ensures Progress(rep, Do(rep, s, a), c)
  {
    if a == SendNextRecord(c) {
      SendNextKeepsProgress(rep, s, c);
    } else if a == Connect(c) || a == MapLog(c) {
      OpeningKeepsProgress(rep, s, a, c);
    } else {
      OtherStepsKeepProgress(rep, s, a, c);
    }
  }

  lemma OtherStepsKeepProgress(rep: Replica, s: Node, a: Action, c: nat)
    requires BytesInv(s.log) && AppendInv(rep, s) && EntriesInv(rep, s.log.entries, s.records) && Progress(rep, s, c)
    requires a != Connect(c) && a != MapLog(c) && a != SendNextRecord(c)
    ensures Progress(rep, Do(rep, s, a), c)
  {
    var s' := Do(rep, s, a);
    DoKeepsFile(rep, s, a);
    OtherStepsLeaveCatchUp(rep, s, a, c);
    if c !in s.catchUps || s.catchUps[c].Opening? {
      SentPrefixSurvives(rep, s, s', c, 0);
    } else if s.catchUps[c].Catching? {
      SentPrefixSurvives(rep, s, s', c, |s.catchUps[c].reader.yielded|);
    } else {
      var k: nat :| SentPrefix(rep, s, c, k);
      SentPrefixSurvives(rep, s, s', c, k);
    }
  }

  lemma {:induction false} ProgressHolds(rep: Replica, actions: seq<Action>, c: nat)
    requires Readable(rep, Execute(rep, actions))
    ensures Progress(rep, Execute(rep, actions), c)
  {
    if actions == [] {
      assert SentPrefix(rep, START, c, 0);
    } else {
      var prefix, a := actions[..|actions| - 1], actions[|actions| - 1];
      ExecuteKeepsInv(rep, prefix);
      ReadableBefore(rep, Execute(rep, prefix), a);
      ExecuteKeepsCatchUps(rep, prefix);
      ProgressHolds(rep, prefix, c);
      DoKeepsProgress(rep, Execute(rep, prefix), a, c);
    }
  }

  /**
   Each connection's catch-up task sends the log's records in log order from the first on, skipping and repeating
   none, provided that the log can be read back.
   */
  lemma CatchUpSendsPrefix(rep: Replica, actions: seq<Action>, c: nat)
    requires Readable(rep, Execute(rep, actions))
    ensures exists k: nat :: SentPrefix(rep, Execute(rep, actions), c, k)
  {
    ProgressHolds(rep, actions, c);
    var s := Execute(rep, actions);
    assert SentPrefix(rep, s, c, 0) || (c in s.catchUps && !s.catchUps[c].Opening?);
  }

  // --- A catch-up task sends everything that was mapped ---

  /** The task of `c` mapped `n` whole frames; it has sent the records it has read, and at its end all `n`. */
  ghost predicate Delivering(rep: Replica, s: Node, c: nat, mmap: Bytes, n: nat) {
    && c in s.catchUps && n <= |s.records| && MapsFrames(s.log, mmap, n)
    && match s.catchUps[c]
       case Opening(_) => false
       case Catching(reader) => reader.mmap == mmap && SentPrefix(rep, s, c, |reader.yielded|)
       case Finished => SentPrefix(rep, s, c, n)
  }

  lemma SendingKeepsDelivering(rep: Replica, s: Node, c: nat, mmap: Bytes, n: nat)
    requires Readable(rep, s) && BytesInv(s.log) && EntriesInv(rep, s.log.entries, s.records)
    requires Delivering(rep, s, c, mmap, n) && s.catchUps[c].Catching? && ReaderInv(s.log, s.catchUps[c].reader)
    ensures Delivering(rep, CatchUpOn(rep, s, c, s.catchUps[c].reader), c, mmap, n)
  {
    var reader := s.catchUps[c].reader;
    var s' := CatchUpOn(rep, s, c, reader);
    NextRecordIsLogged(rep, s, reader);
    NextYieldsIff(s.log, reader, n);
    NextKeepsInv(s.log, reader);
    if NextItem(reader).0.Entry? {
      SentOneMore(rep, s, s', c, |reader.yielded|);
    } else {
      SentPrefixSurvives(rep, s, s', c, |reader.yielded|);
    }
  }

  lemma OtherStepsKeepDelivering(rep: Replica, s: Node, a: Action, c: nat, mmap: Bytes, n: nat)
    requires NodeInv(rep, s) && Delivering(rep, s, c, mmap, n)
    requires a != SendNextRecord(c)
    ensures Delivering(rep, Do(rep, s, a), c, mmap, n)
  {
    var s' := Do(rep, s, a);
    if a == Connect(c) || a == MapLog(c) {
      assert s' == s;
    } else {
      DoKeepsFile(rep, s, a);
      OtherStepsLeaveCatchUp(rep, s, a, c);
      MapsFramesSurvives(s.log, s'.log, mmap, n);
      if s.catchUps[c].Catching? {
        SentPrefixSurvives(rep, s, s', c, |s.catchUps[c].reader.yielded|);
      } else {
        SentPrefixSurvives(rep, s, s', c, n);
      }
    }
  }

  lemma SendNextIs(rep: Replica, s: Node, c: nat)
    requires c in s.catchUps
    ensures Do(rep, s, SendNextRecord(c)) == if s.catchUps[c].Catching? then CatchUpOn(rep, s, c, s.catchUps[c].reader) else s
  {
  }

  lemma OwnStepKeepsDelivering(rep: Replica, s: Node, c: nat, mmap: Bytes, n: nat)
    requires Readable(rep, s) && BytesInv(s.log) && EntriesInv(rep, s.log.entries, s.records)
    requires Delivering(rep, s, c, mmap, n) && CatchUpInv(s.log, s.catchUps[c])
    ensures Delivering(rep, Do(rep, s, SendNextRecord(c)), c, mmap, n)
  {
    SendNextIs(rep, s, c);
    if s.catchUps[c].Catching? {
      SendingKeepsDelivering(rep, s, c, mmap, n);
    }
  }

  lemma DoKeepsDelivering(rep: Replica, s: Node, a: Action, c: nat, mmap: Bytes, n: nat)
    requires NodeInv(rep, s) && Readable(rep, s) && CatchUpsInv(rep, s) && Delivering(rep, s, c, mmap, n)
    ensures Delivering(rep, Do(rep, s, a), c, mmap, n)
  {
    if a == SendNextRecord(c) {
      OwnStepKeepsDelivering(rep, s, c, mmap, n);
    } else {
      OtherStepsKeepDelivering(rep, s, a, c, mmap, n);
    }
  }

  /** Mapping the log promises all the records in it. */
  lemma MappingStartsDelivery(rep: Replica, s: Node, c: nat)
    requires NodeInv(rep, s) && c in s.catchUps && s.catchUps[c].Opening? && Progress(rep, s, c)
    ensures Delivering(rep, Do(rep, s, MapLog(c)), c, s.log.file, |s.records|)
  {
    var s' := Do(rep, s, MapLog(c));
    FileMapsAll(s.log);
    SentPrefixSurvives(rep, s, s', c, 0);
  }

  lemma ExecuteSnoc(rep: Replica, actions: seq<Action>, a: Action)
    ensures Execute(rep, actions + [a]) == Do(rep, Execute(rep, actions), a)
  {
    assert (actions + [a])[..|actions|] == actions;
  }

  lemma ReadableOneEarlier(rep: Replica, actions: seq<Action>, a: Action)
    requires Readable(rep, Execute(rep, actions + [a]))
    ensures Readable(rep, Execute(rep, actions))
  {
    ExecuteSnoc(rep, actions, a);
    ExecuteKeepsInv(rep, actions);
    ReadableBefore(rep, Execute(rep, actions), a);
  }

  lemma DeliveryGoesOneOn(rep: Replica, actions: seq<Action>, a: Action, c: nat, mmap: Bytes, n: nat)
    requires Delivering(rep, Execute(rep, actions), c, mmap, n) && Readable(rep, Execute(rep, actions + [a]))
    ensures Delivering(rep, Execute(rep, actions + [a]), c, mmap, n)
  {
    ReadableOneEarlier(rep, actions, a);
    ExecuteKeepsInv(rep, actions);
    ExecuteKeepsCatchUps(rep, actions);
    DoKeepsDelivering(rep, Execute(rep, actions), a, c, mmap, n);
    ExecuteSnoc(rep, actions, a);
  }

  lemma {:induction false} DeliveryGoesOn(rep: Replica, start: seq<Action>, all: seq<Action>, c: nat, mmap: Bytes, n: nat)
    requires start <= all && Delivering(rep, Execute(rep, start), c, mmap, n) && Readable(rep, Execute(rep, all))
    ensures Delivering(rep, Execute(rep, all), c, mmap, n)
    decreases |all|
  {
    if |all| == |start| {
      assert all == start;
    } else {
      var front, a := all[..|all| - 1], all[|all| - 1];
      assert front + [a] == all;
      ReadableOneEarlier(rep, front, a);
      DeliveryGoesOn(rep, start, front, c, mmap, n);
      DeliveryGoesOneOn(rep, front, a, c, mmap, n);
    }
  }

  /** What could be read back in the end could be read back earlier. */
  lemma {:induction false} ReadableEarlier(rep: Replica, start: seq<Action>, all: seq<Action>)
    requires start <= all && Readable(rep, Execute(rep, all))
    ensures Readable(rep, Execute(rep, start))
    decreases |all|
  {
    if |all| == |start| {
      assert all == start;
    } else {
      var front, a := all[..|all| - 1], all[|all| - 1];
      assert front + [a] == all;
      ReadableOneEarlier(rep, front, a);
      ReadableEarlier(rep, start, front);
    }
  }

  lemma MappedLogIsDelivered(rep: Replica, earlier: seq<Action>, later: seq<Action>, c: nat)
    requires c in Execute(rep, earlier).catchUps && Execute(rep, earlier).catchUps[c].Opening?
    requires Readable(rep, Execute(rep, earlier + [MapLog(c)] + later))
    ensures var before := Execute(rep, earlier);
            Delivering(rep, Execute(rep, earlier + [MapLog(c)] + later), c, before.log.file, |before.records|)
  {
    var before := Execute(rep, earlier);
    ReadableEarlier(rep, earlier, earlier + [MapLog(c)] + later);
    ProgressHolds(rep, earlier, c);
    ExecuteKeepsInv(rep, earlier);
    MappingStartsDelivery(rep, before, c);
    ExecuteSnoc(rep, earlier, MapLog(c));
    DeliveryGoesOn(rep, earlier + [MapLog(c)], earlier + [MapLog(c)] + later, c, before.log.file, |before.records|);
  }

  /**
   Whatever else goes on, a catch-up task that is finished has sent exactly the records that were in the log when it
   was mapped, each once and in order; until then it has sent an initial part of them.
   */
  lemma CatchUpDelivers(rep: Replica, earlier: seq<Action>, later: seq<Action>, c: nat)
    requires c in Execute(rep, earlier).catchUps && Execute(rep, earlier).catchUps[c].Opening?
    requires Readable(rep, Execute(rep, earlier + [MapLog(c)] + later))
    ensures var n, s := |Execute(rep, earlier).records|, Execute(rep, earlier + [MapLog(c)] + later);
            && c in s.catchUps && !s.catchUps[c].Opening?
            && (s.catchUps[c].Finished? ==> SentPrefix(rep, s, c, n))
            && (s.catchUps[c].Catching? ==> |s.catchUps[c].reader.yielded| <= n && SentPrefix(rep, s, c, |s.catchUps[c].reader.yielded|))
  {
    var all := earlier + [MapLog(c)] + later;
    var s := Execute(rep, all);
    MappedLogIsDelivered(rep, earlier, later, c);
    ExecuteKeepsInv(rep, all);
    ExecuteKeepsCatchUps(rep, all);
    if s.catchUps[c].Catching? {
      assert CatchUpInv(s.log, s.catchUps[c]);
      NextYieldsIff(s.log, s.catchUps[c].reader, |Execute(rep, earlier).records|);
    }
  }
}
