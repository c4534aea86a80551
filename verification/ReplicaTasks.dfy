/** The replica's tasks as loops over shared objects, each of which does what its steps in the interleaving do. */
module ReplicaTasks {
  import opened Types
  import opened MessageLayout
  import opened ReplicaLog
  import opened LogReading
  import opened Steps = ReplicaRun

  /** How logging one record turns out. */
  datatype LogOutcome = Logged | NotWritten | NotSynced

  function AppendOutcomeOf(outcome: LogOutcome): AppendOutcome {
    match outcome
    case Logged => AppendOutcome.Logged
    case NotWritten => WriteFails(0)
    case NotSynced => SyncFails
  }

  /** A transaction taken off the channel, with the round the clock shows and the outcome of the append. */
  datatype Request = Request(tx: Transaction, ts: Timestamp, outcome: LogOutcome)

  function RunFrom(rep: Replica, s: Node, actions: seq<Steps.Action>): Node
    decreases |actions|
  {
    if actions == [] then s else RunFrom(rep, Steps.Do(rep, s, actions[0]), actions[1..])
  }

  /** The steps of the log-vote task for one transaction. */
  function LogVoteSteps(rep: Replica, sn: SequenceNumber, q: Request): seq<Steps.Action> {
    var frame := |Frame(rep.encode(SignedRecord(rep, q.tx, q.ts, sn)))|;
    [Receive(q.tx), TakeNumber, StampAndSign(q.ts)] +
    match q.outcome
    case NotWritten => [FailAppend]
    case NotSynced => [StartAppend, WriteSome(frame), FailSync]
    case Logged => [StartAppend, WriteSome(frame), Sync, Broadcast]
  }

  /** Between transactions and heartbeats. */
  ghost predicate Idle(s: Node) {
    s.logTask.Waiting? && s.beatTask.Resting? && s.log.writing.None? && s.log.written == 0
  }

  /** What one transaction leaves behind. */
  function AfterLogVote(rep: Replica, s: Node, sn: SequenceNumber, q: Request): Node {
    var rec := SignedRecord(rep, q.tx, q.ts, sn);
    var vote := VoteOf(rep, rec);
    var payload := rep.encode(rec);
    var signed := s.(nextsn := s.nextsn + 1, signed := s.signed + {vote});
    if q.outcome.NotWritten? then signed
    else
      var logged := signed.(
        log := LogFile(s.log.entries + [payload], None, 0, s.log.file + Frame(payload)), records := s.records + [rec]);
      if q.outcome.NotSynced? then logged
      else logged.(durable := s.durable + {sn}, sent := s.sent + [Sent(FromLogVote, vote)])
  }

  lemma OneStep(rep: Replica, s: Node, a: Steps.Action, rest: seq<Steps.Action>)
    ensures RunFrom(rep, s, [a] + rest) == RunFrom(rep, Steps.Do(rep, s, a), rest)
  {
    assert ([a] + rest)[1..] == rest;
  }

  lemma ThreeSteps(rep: Replica, s: Node, a: Steps.Action, b: Steps.Action, c: Steps.Action, rest: seq<Steps.Action>)
    ensures RunFrom(rep, s, [a, b, c] + rest) == RunFrom(rep, Steps.Do(rep, Steps.Do(rep, Steps.Do(rep, s, a), b), c), rest)
  {
    var s1 := Steps.Do(rep, s, a);
    var s2 := Steps.Do(rep, s1, b);
    OneStep(rep, s, a, [b, c] + rest);
    OneStep(rep, s1, b, [c] + rest);
    OneStep(rep, s2, c, rest);
    assert [a, b, c] + rest == [a] + ([b, c] + rest);
    assert [b, c] + rest == [b] + ([c] + rest);
  }

  lemma {:induction false} RunFromConcat(rep: Replica, s: Node, xs: seq<Steps.Action>, ys: seq<Steps.Action>)
    ensures RunFrom(rep, s, xs + ys) == RunFrom(rep, RunFrom(rep, s, xs), ys)
    decreases |xs|
  {
    if xs == [] {
      assert xs + ys == ys;
    } else {
      RunFromConcat(rep, Steps.Do(rep, s, xs[0]), xs[1..], ys);
      assert (xs + ys)[1..] == xs[1..] + ys;
    }
  }

  /** What the loops do from a state the interleaving reaches, the interleaving does too. */
  lemma {:induction false} RunFromExtendsExecute(rep: Replica, xs: seq<Steps.Action>, ys: seq<Steps.Action>)
    ensures RunFrom(rep, Steps.Execute(rep, xs), ys) == Steps.Execute(rep, xs + ys)
    decreases |ys|
  {
    if ys == [] {
      assert xs + ys == xs;
    } else {
      RunFromExtendsExecute(rep, xs + [ys[0]], ys[1..]);
      assert (xs + [ys[0]])[..|xs|] == xs;
      assert xs + [ys[0]] + ys[1..] == xs + ys;
    }
  }

  /** The steps for a whole channel of transactions. */
  function ServeSteps(rep: Replica, sn: nat, requests: seq<Request>): seq<Steps.Action>
    requires sn + |requests| <= TWO_64
  {
    if requests == [] then []
    else
      var last := |requests| - 1;
      ServeSteps(rep, sn, requests[..last]) + LogVoteSteps(rep, sn + last, requests[last])
  }

  lemma ServeStepsSnoc(rep: Replica, sn: nat, requests: seq<Request>, i: nat)
    requires i < |requests| && sn + |requests| <= TWO_64
    ensures ServeSteps(rep, sn, requests[..i + 1]) == ServeSteps(rep, sn, requests[..i]) + LogVoteSteps(rep, sn + i, requests[i])
  {
    assert requests[..i + 1][..i] == requests[..i];
  }

  lemma WholeFrameWritten(log: LogFile, payload: Bytes)
    requires log.writing.None? && log.written == 0
    ensures WriteBytes(BeginAppend(log, payload), |Frame(payload)|) ==
            LogFile(log.entries + [payload], None, 0, log.file + Frame(payload))
  {
    assert Frame(payload)[0..] == Frame(payload);
  }

  /** The log-vote task's steps, uninterrupted, do to the node what its loop body does. */
  lemma LogVoteStepsDo(rep: Replica, s: Node, q: Request)
    requires Idle(s) && s.nextsn < TWO_64
    ensures RunFrom(rep, s, LogVoteSteps(rep, s.nextsn, q)) == AfterLogVote(rep, s, s.nextsn, q)
  {
    var sn: SequenceNumber := s.nextsn;
    var rec := SignedRecord(rep, q.tx, q.ts, sn);
    var payload := rep.encode(rec);
    var steps := LogVoteSteps(rep, sn, q);
    ThreeSteps(rep, s, Receive(q.tx), TakeNumber, StampAndSign(q.ts), steps[3..]);
    assert steps == [Receive(q.tx), TakeNumber, StampAndSign(q.ts)] + steps[3..];
    var s3 := s.(nextsn := sn + 1, logTask := Signed(rec), signed := s.signed + {VoteOf(rep, rec)});
    assert Steps.Do(rep, Steps.Do(rep, Steps.Do(rep, s, Receive(q.tx)), TakeNumber), StampAndSign(q.ts)) == s3;
    WholeFrameWritten(s.log, payload);
    var s5 := Steps.Do(rep, Steps.Do(rep, s3, StartAppend), WriteSome(|Frame(payload)|));
    match q.outcome {
      case NotWritten =>
        assert steps[3..] == [FailAppend];
      case NotSynced =>
        ThreeSteps(rep, s3, StartAppend, WriteSome(|Frame(payload)|), FailSync, []);
        assert steps[3..] == [StartAppend, WriteSome(|Frame(payload)|), FailSync] + [];
      case Logged =>
        ThreeSteps(rep, s3, StartAppend, WriteSome(|Frame(payload)|), Sync, [Broadcast]);
        assert steps[3..] == [StartAppend, WriteSome(|Frame(payload)|), Sync] + [Broadcast];
    }
  }

  /** The heartbeat task's steps, uninterrupted, send one heartbeat under the next number. */
  lemma BeatStepsDo(rep: Replica, s: Node, ts: Timestamp)
    requires Idle(s) && s.nextsn < TWO_64
    ensures var vote := VoteUnder(rep, Transaction(HEARTBEAT), ts, s.nextsn);
            RunFrom(rep, s, [BeatTakeNumber, BeatStampAndSign(ts), BeatSend]) ==
            s.(nextsn := s.nextsn + 1, signed := s.signed + {vote}, sent := s.sent + [Sent(FromHeartbeat, vote)])
  {
    ThreeSteps(rep, s, BeatTakeNumber, BeatStampAndSign(ts), BeatSend, []);
    assert [BeatTakeNumber, BeatStampAndSign(ts), BeatSend] + [] == [BeatTakeNumber, BeatStampAndSign(ts), BeatSend];
  }

  // --- Any sequence of turns of the two voting loops ---

  /** One turn: a transaction arrives at the log-vote loop, or the heartbeat loop ticks in round `ts`. */
  datatype Turn = OnRequest(q: Request) | OnTick(ts: Timestamp)

  /** A vote of the replica for `tx` in round `ts`, signed under number `sn`. */
  function VoteUnder(rep: Replica, tx: Transaction, ts: Timestamp, sn: SequenceNumber): Vote {
    Vote(rep.id, ts, sn, rep.sign(MessageToSign(tx.data, ts, sn)), Some(tx))
  }

  function TurnSteps(rep: Replica, sn: SequenceNumber, turn: Turn): seq<Steps.Action> {
    match turn
    case OnRequest(q) => LogVoteSteps(rep, sn, q)
    case OnTick(ts) => [BeatTakeNumber, BeatStampAndSign(ts), BeatSend]
  }

  function TurnsSteps(rep: Replica, sn: nat, turns: seq<Turn>): seq<Steps.Action>
    requires sn + |turns| <= TWO_64
  {
    if turns == [] then []
    else
      var last := |turns| - 1;
      TurnsSteps(rep, sn, turns[..last]) + TurnSteps(rep, sn + last, turns[last])
  }

  /** What a turn sends: a heartbeat always, a vote if the log has it durably. */
  function SentOn(rep: Replica, sn: SequenceNumber, turn: Turn): seq<Sent> {
    match turn
    case OnRequest(q) => if q.outcome.Logged? then [Sent(FromLogVote, VoteUnder(rep, q.tx, q.ts, sn))] else []
    case OnTick(ts) => [Sent(FromHeartbeat, VoteUnder(rep, Transaction(HEARTBEAT), ts, sn))]
  }

  /** What it logs: the vote of a request, unless writing fails. */
  function LoggedOn(rep: Replica, sn: SequenceNumber, turn: Turn): seq<VoteRecord> {
    match turn
    case OnRequest(q) =>
      if q.outcome.NotWritten? then []
      else [VoteRecord(Some(q.tx), q.ts, sn, rep.sign(MessageToSign(q.tx.data, q.ts, sn)))]
    case OnTick(_) => []
  }

  function SentOver(rep: Replica, sn: nat, turns: seq<Turn>): seq<Sent>
    requires sn + |turns| <= TWO_64
  {
    if turns == [] then []
    else
      var last := |turns| - 1;
      SentOver(rep, sn, turns[..last]) + SentOn(rep, sn + last, turns[last])
  }

  function LoggedOver(rep: Replica, sn: nat, turns: seq<Turn>): seq<VoteRecord>
    requires sn + |turns| <= TWO_64
  {
    if turns == [] then []
    else
      var last := |turns| - 1;
      LoggedOver(rep, sn, turns[..last]) + LoggedOn(rep, sn + last, turns[last])
  }

  /** Each turn has drawn the next number, and what the turns were to send and log has been sent and logged. */
  ghost predicate TurnsTaken(rep: Replica, s: Node, s': Node, turns: seq<Turn>)
    requires s.nextsn + |turns| <= TWO_64
  {
    && Idle(s') && s'.catchUps == s.catchUps
    && s'.nextsn == s.nextsn + |turns|
    && s'.sent == s.sent + SentOver(rep, s.nextsn, turns)
    && s'.records == s.records + LoggedOver(rep, s.nextsn, turns)
  }

  lemma OneTurnTaken(rep: Replica, s: Node, turn: Turn)
    requires Idle(s) && s.nextsn < TWO_64
    ensures var s' := RunFrom(rep, s, TurnSteps(rep, s.nextsn, turn));
            && Idle(s') && s'.catchUps == s.catchUps && s'.nextsn == s.nextsn + 1
            && s'.sent == s.sent + SentOn(rep, s.nextsn, turn) && s'.records == s.records + LoggedOn(rep, s.nextsn, turn)
  {
    match turn
    case OnRequest(q) =>
      LogVoteStepsDo(rep, s, q);
      assert s.sent + [] == s.sent && s.records + [] == s.records;
    case OnTick(ts) =>
      BeatStepsDo(rep, s, ts);
      assert s.records + [] == s.records;
  }

  lemma AppendAgain<T>(a: seq<T>, b: seq<T>, c: seq<T>)
    ensures a + b + c == a + (b + c)
  {
  }

  lemma OneTurnMore(rep: Replica, s: Node, before: Node, turns: seq<Turn>, turn: Turn)
    requires s.nextsn + |turns| < TWO_64 && TurnsTaken(rep, s, before, turns)
    ensures TurnsTaken(rep, s, RunFrom(rep, before, TurnSteps(rep, before.nextsn, turn)), turns + [turn])
  {
    var all := turns + [turn];
    assert all[..|turns|] == turns;
    OneTurnTaken(rep, before, turn);
    AppendAgain(s.sent, SentOver(rep, s.nextsn, turns), SentOn(rep, before.nextsn, turn));
    AppendAgain(s.records, LoggedOver(rep, s.nextsn, turns), LoggedOn(rep, before.nextsn, turn));
  }

  /** Whatever requests and ticks come, in whatever order, each turn does exactly its part. */
  lemma {:induction false} TurnsDo(rep: Replica, s: Node, turns: seq<Turn>)
    requires Idle(s) && s.nextsn + |turns| <= TWO_64
    ensures TurnsTaken(rep, s, RunFrom(rep, s, TurnsSteps(rep, s.nextsn, turns)), turns)
  {
    if turns == [] {
      assert s.sent + [] == s.sent && s.records + [] == s.records;
    } else {
      var front, turn := turns[..|turns| - 1], turns[|turns| - 1];
      var before := RunFrom(rep, s, TurnsSteps(rep, s.nextsn, front));
      TurnsDo(rep, s, front);
      RunFromConcat(rep, s, TurnsSteps(rep, s.nextsn, front), TurnSteps(rep, before.nextsn, turn));
      OneTurnMore(rep, s, before, front, turn);
      assert front + [turn] == turns;
    }
  }

  /** From the start of a run: the votes of the turns, numbered 0, 1, 2, ..., and the records of those logged. */
  lemma ExecuteTurns(rep: Replica, turns: seq<Turn>)
    requires |turns| <= TWO_64
    ensures var s := Steps.Execute(rep, TurnsSteps(rep, 0, turns));
            s.nextsn == |turns| && s.sent == SentOver(rep, 0, turns) && s.records == LoggedOver(rep, 0, turns)
  {
    TurnsDo(rep, START, turns);
    RunFromExtendsExecute(rep, [], TurnsSteps(rep, 0, turns));
    assert [] + TurnsSteps(rep, 0, turns) == TurnsSteps(rep, 0, turns);
    assert START.sent + SentOver(rep, 0, turns) == SentOver(rep, 0, turns);
    assert START.records + LoggedOver(rep, 0, turns) == LoggedOver(rep, 0, turns);
  }

  predicate Sends(turn: Turn) {
    turn.OnTick? || turn.q.outcome.Logged?
  }

  /** If every turn sends, the vote at position `i` is that of turn `i`, under number `sn + i`. */
  lemma {:induction false} AllTurnsSend(rep: Replica, sn: nat, turns: seq<Turn>)
    requires sn + |turns| <= TWO_64 && forall turn <- turns :: Sends(turn)
    ensures var sent := SentOver(rep, sn, turns);
            |sent| == |turns| && forall i :: 0 <= i < |turns| ==> [sent[i]] == SentOn(rep, sn + i, turns[i])
  {
    if turns == [] {
    } else {
      AllTurnsSend(rep, sn, turns[..|turns| - 1]);
      assert Sends(turns[|turns| - 1]);
    }
  }

  /** The objects the replica's tasks share. */
  class ReplicaNode {
    const rep: Replica
    const log: ReplicaLogAppender
    var nextsn: nat
    var sent: seq<Sent>
    ghost var entries: seq<Bytes>
    ghost var records: seq<VoteRecord>
    ghost var durable: set<SequenceNumber>
    ghost var signed: set<Vote>

    ghost function State(): Node
      reads this, log
    {
      Node(nextsn, Waiting, Resting, map[], LogFile(entries, None, 0, log.file), records, durable, signed, sent)
    }

    constructor (rep: Replica)
      ensures this.rep == rep && fresh(log) && State() == START
    {
      this.rep := rep;
      log := new ReplicaLogAppender();
      nextsn, sent := 0, [];
      entries, records, durable, signed := [], [], {}, {};
    }

    /** One turn of the log-vote loop: number, timestamp, sign, append with its sync, broadcast. */
    method LogVote(q: Request)
      requires nextsn < TWO_64
      modifies this, log
      ensures State() == RunFrom(rep, old(State()), LogVoteSteps(rep, old(nextsn), q))
      ensures nextsn == old(nextsn) + 1
      ensures sent == old(sent) + SentOn(rep, old(nextsn), OnRequest(q))
      ensures records == old(records) + LoggedOn(rep, old(nextsn), OnRequest(q))
    {
      LogVoteStepsDo(rep, State(), q);
      var sn: SequenceNumber := nextsn;
      nextsn := nextsn + 1;
      var message := q.tx.data;
      message := message + LittleEndian(q.ts, 8);
      message := message + LittleEndian(sn, 8);
      var record := VoteRecord(Some(q.tx), q.ts, sn, rep.sign(message));
      signed := signed + {VoteOf(rep, record)};
      var payload := rep.encode(record);
      var ok := log.Append(Some(payload), AppendOutcomeOf(q.outcome));
      if !q.outcome.NotWritten? {
        entries, records := entries + [payload], records + [record];
      }
      if !ok {
        return;
      }
      durable := durable + {sn};
      sent := sent + [Sent(FromLogVote, Vote(rep.id, q.ts, sn, record.sig, Some(q.tx)))];
    }

    /** The log-vote task over a whole channel, while nothing else runs. */
    method Serve(requests: seq<Request>)
      requires nextsn + |requests| <= TWO_64
      modifies this, log
      ensures State() == RunFrom(rep, old(State()), ServeSteps(rep, old(nextsn), requests))
    {
      var taken := 0;
      while taken < |requests|
        invariant taken <= |requests| && nextsn == old(nextsn) + taken
        invariant State() == RunFrom(rep, old(State()), ServeSteps(rep, old(nextsn), requests[..taken]))
      {
        ghost var sn := nextsn;
        LogVote(requests[taken]);
        ServeStepsSnoc(rep, old(nextsn), requests, taken);
        RunFromConcat(rep, old(State()), ServeSteps(rep, old(nextsn), requests[..taken]), LogVoteSteps(rep, sn, requests[taken]));
        taken := taken + 1;
      }
      assert requests[..taken] == requests;
    }

    /** One tick of the heartbeat loop. */
    method Beat(ts: Timestamp)
      requires nextsn < TWO_64
      modifies this
      ensures State() == RunFrom(rep, old(State()), [BeatTakeNumber, BeatStampAndSign(ts), BeatSend])
      ensures nextsn == old(nextsn) + 1
      ensures sent == old(sent) + SentOn(rep, old(nextsn), OnTick(ts))
    {
      BeatStepsDo(rep, State(), ts);
      var sn: SequenceNumber := nextsn;
      nextsn := nextsn + 1;
      var message := HEARTBEAT;
      message := message + LittleEndian(ts, 8);
      message := message + LittleEndian(sn, 8);
      var vote := Vote(rep.id, ts, sn, rep.sign(message), Some(Transaction(HEARTBEAT)));
      assert vote == VoteUnder(rep, Transaction(HEARTBEAT), ts, sn);
      signed := signed + {vote};
      sent := sent + [Sent(FromHeartbeat, vote)];
    }
  }

  // --- Catching up ---

  /** The votes rebuilt from log payloads, up to the first that does not decode. */
  function VotesRead(rep: Replica, payloads: seq<Bytes>): seq<Vote> {
    if payloads == [] || rep.decode(payloads[0]).None? then []
    else [VoteOf(rep, rep.decode(payloads[0]).value)] + VotesRead(rep, payloads[1..])
  }

  ghost predicate Decodes(rep: Replica, payloads: seq<Bytes>, k: nat) {
    k <= |payloads| && forall i :: 0 <= i < k ==> rep.decode(payloads[i]).Some?
  }

  /** These are the votes of the longest initial part that decodes. */
  lemma {:induction false} VotesReadAreLongest(rep: Replica, payloads: seq<Bytes>)
    ensures var votes := VotesRead(rep, payloads);
            && Decodes(rep, payloads, |votes|)
            && (forall i :: 0 <= i < |votes| ==> votes[i] == VoteOf(rep, rep.decode(payloads[i]).value))
            && (|votes| < |payloads| ==> rep.decode(payloads[|votes|]).None?)
  {
    if payloads == [] || rep.decode(payloads[0]).None? {
    } else {
      VotesReadAreLongest(rep, payloads[1..]);
      var rest := VotesRead(rep, payloads[1..]);
      assert VotesRead(rep, payloads) == [VoteOf(rep, rep.decode(payloads[0]).value)] + rest;
      assert forall i :: 0 <= i < |rest| ==> payloads[1..][i] == payloads[i + 1];
    }
  }

  /** Sends every vote the log holds as mapped; stops at the end and at any error. */
  method SendHistory(rep: Replica, log: MmapLogIterator) returns (sent: seq<Vote>)
    requires log.Valid()
    modifies log
    ensures sent == VotesRead(rep, ReadAll(old(log.mmap), old(log.position)).0)
  {
    sent := [];
    while true
      invariant log.Valid() && log.mmap == old(log.mmap)
      invariant sent + VotesRead(rep, ReadAll(log.mmap, log.position).0) == VotesRead(rep, ReadAll(old(log.mmap), old(log.position)).0)
      decreases |log.mmap| - log.position
    {
      ghost var rest := ReadAll(log.mmap, log.position).0;
      var item := log.Next();
      if !item.Entry? {
        assert rest == [];
        return;
      }
      assert rest == [item.payload] + ReadAll(log.mmap, log.position).0;
      assert rest[1..] == ReadAll(log.mmap, log.position).0;
      var record := rep.decode(item.payload);
      if record.None? {
        assert VotesRead(rep, rest) == [];
        return;
      }
      sent := sent + [VoteOf(rep, record.value)];
    }
  }

  function EncodeAll(rep: Replica, records: seq<VoteRecord>): (entries: seq<Bytes>)
    ensures |entries| == |records| && forall i :: 0 <= i < |records| ==> entries[i] == rep.encode(records[i])
  {
    seq(|records|, i requires 0 <= i < |records| => rep.encode(records[i]))
  }

  lemma {:induction false} EncodedVotesAreRead(rep: Replica, records: seq<VoteRecord>)
    requires CodecRoundTrips(rep)
    ensures VotesRead(rep, EncodeAll(rep, records)) == VotesOf(rep, records)
  {
    if records == [] {
    } else {
      EncodedVotesAreRead(rep, records[1..]);
      assert EncodeAll(rep, records)[1..] == EncodeAll(rep, records[1..]);
      assert rep.decode(rep.encode(records[0])) == Some(records[0]);
      assert VotesOf(rep, records) == [VoteOf(rep, records[0])] + VotesOf(rep, records[1..]);
    }
  }

  /** From a log mapped after any number of its bytes, catching up sends exactly the votes that are wholly there. */
  lemma HistoryIsWhatIsLogged(rep: Replica, records: seq<VoteRecord>, n: nat)
    requires CodecRoundTrips(rep) && Fit(EncodeAll(rep, records)) && n <= |EncodeLog(EncodeAll(rep, records))|
    ensures var entries := EncodeAll(rep, records);
            VotesRead(rep, ReadAll(EncodeLog(entries)[..n], 0).0) == VotesOf(rep, records[..WholeFrames(entries, n)])
  {
    var entries := EncodeAll(rep, records);
    var k := WholeFrames(entries, n);
    TornLogRoundTrip(entries, n);
    assert entries[0..k] == EncodeAll(rep, records[..k]);
    EncodedVotesAreRead(rep, records[..k]);
  }

  function RepeatStep(a: Steps.Action, k: nat): seq<Steps.Action> {
    if k == 0 then [] else [a] + RepeatStep(a, k - 1)
  }

  /** Votes sent by the catch-up task of a connection. */
  function CaughtUpAs(c: nat, votes: seq<Vote>): (sent: seq<Sent>)
    ensures |sent| == |votes| && forall i :: 0 <= i < |votes| ==> sent[i] == Sent(FromCatchUp(c), votes[i])
  {
    if votes == [] then [] else [Sent(FromCatchUp(c), votes[0])] + CaughtUpAs(c, votes[1..])
  }

  lemma {:induction false} FinishedStaysFinished(rep: Replica, s: Node, c: nat, k: nat)
    requires c in s.catchUps && s.catchUps[c].Finished?
    ensures RunFrom(rep, s, RepeatStep(SendNextRecord(c), k)) == s
  {
    if k > 0 {
      OneStep(rep, s, SendNextRecord(c), RepeatStep(SendNextRecord(c), k - 1));
      FinishedStaysFinished(rep, s, c, k - 1);
    }
  }

  /** What is left to send for a catch-up task. */
  function HistoryFrom(rep: Replica, reader: Reader): seq<Vote> {
    VotesRead(rep, ReadAll(reader.mmap, reader.position).0)
  }

  lemma StepSendsHistory(rep: Replica, s: Node, c: nat)
    requires c in s.catchUps && s.catchUps[c].Catching?
    ensures var reader, s' := s.catchUps[c].reader, Steps.Do(rep, s, SendNextRecord(c));
            var (item, reader') := NextItem(reader);
            if item.Entry? && rep.decode(item.payload).Some? then
              && s' == s.(catchUps := s.catchUps[c := Catching(reader')], sent := s.sent + [Sent(FromCatchUp(c), HistoryFrom(rep, reader)[0])])
              && HistoryFrom(rep, reader) == [HistoryFrom(rep, reader)[0]] + HistoryFrom(rep, reader')
            else s' == s.(catchUps := s.catchUps[c := Finished]) && HistoryFrom(rep, reader) == []
  {
    var reader := s.catchUps[c].reader;
    var (item, reader') := NextItem(reader);
    if item.Entry? {
      var rest := ReadAll(reader'.mmap, reader'.position).0;
      assert ReadAll(reader.mmap, reader.position).0 == [item.payload] + rest;
      assert ([item.payload] + rest)[1..] == rest;
    }
  }

  /**
   Left alone, a catch-up task sends what `SendHistory` sends from its mapping and position, in order, each as one
   step, and then it is finished.
   */
  lemma {:induction false} StepsSendHistory(rep: Replica, s: Node, c: nat, k: nat)
    requires c in s.catchUps && s.catchUps[c].Catching? && k > |HistoryFrom(rep, s.catchUps[c].reader)|
    ensures RunFrom(rep, s, RepeatStep(SendNextRecord(c), k)) ==
            s.(catchUps := s.catchUps[c := Finished], sent := s.sent + CaughtUpAs(c, HistoryFrom(rep, s.catchUps[c].reader)))
    decreases k
  {
    var history := HistoryFrom(rep, s.catchUps[c].reader);
    var s' := Steps.Do(rep, s, SendNextRecord(c));
    StepSendsHistory(rep, s, c);
    OneStep(rep, s, SendNextRecord(c), RepeatStep(SendNextRecord(c), k - 1));
    if s'.catchUps[c].Catching? {
      StepsSendHistory(rep, s', c, k - 1);
      assert CaughtUpAs(c, history) == [Sent(FromCatchUp(c), history[0])] + CaughtUpAs(c, history[1..]);
      assert history[1..] == HistoryFrom(rep, s'.catchUps[c].reader);
      AppendAgain(s.sent, [Sent(FromCatchUp(c), history[0])], CaughtUpAs(c, history[1..]));
    } else {
      FinishedStaysFinished(rep, s', c, k - 1);
      assert s.sent + [] == s.sent;
    }
  }

  /** More steps than there is history left finish a task that has mapped the log. */
  lemma StepsFinish(rep: Replica, s: Node, c: nat, k: nat)
    requires c in s.catchUps && !s.catchUps[c].Opening?
    requires s.catchUps[c].Catching? ==> k > |HistoryFrom(rep, s.catchUps[c].reader)|
    ensures var s' := RunFrom(rep, s, RepeatStep(SendNextRecord(c), k));
            s'.log == s.log && c in s'.catchUps && s'.catchUps[c].Finished?
  {
    if s.catchUps[c].Catching? {
      StepsSendHistory(rep, s, c, k);
    } else {
      FinishedStaysFinished(rep, s, c, k);
    }
  }

  /**
   Once the log is mapped, nothing that happens in between keeps a catch-up task from sending every record that was in
   the log then: enough further steps of its own complete it.
   */
  lemma CatchUpCompletes(rep: Replica, earlier: seq<Steps.Action>, later: seq<Steps.Action>, c: nat, k: nat)
    requires c in Steps.Execute(rep, earlier).catchUps && Steps.Execute(rep, earlier).catchUps[c].Opening?
    requires var s := Steps.Execute(rep, earlier + [MapLog(c)] + later);
             && Readable(rep, s) && c in s.catchUps
             && (s.catchUps[c].Catching? ==> k > |HistoryFrom(rep, s.catchUps[c].reader)|)
    ensures var n, s := |Steps.Execute(rep, earlier).records|,
                        Steps.Execute(rep, earlier + [MapLog(c)] + (later + RepeatStep(SendNextRecord(c), k)));
            && c in s.catchUps && s.catchUps[c].Finished?
            && SentPrefix(rep, s, c, n)
  {
    var steps := RepeatStep(SendNextRecord(c), k);
    var s := Steps.Execute(rep, earlier + [MapLog(c)] + later);
    CatchUpDelivers(rep, earlier, later, c);
    StepsFinish(rep, s, c, k);
    RunFromExtendsExecute(rep, earlier + [MapLog(c)] + later, steps);
    AppendAgain(earlier + [MapLog(c)], later, steps);
    CatchUpDelivers(rep, earlier, later + steps, c);
  }

  /** A connection's task starts at the beginning of the file as it is when it is mapped. */
  lemma ConnectOpensLog(rep: Replica, s: Node, c: nat)
    requires c !in s.catchUps
    ensures RunFrom(rep, s, [Connect(c), MapLog(c)]) ==
            s.(catchUps := s.catchUps[c := Catching(Reader(s.log.file, 0, |s.log.file|, []))])
  {
    OneStep(rep, s, Connect(c), [MapLog(c)]);
    OneStep(rep, Steps.Do(rep, s, Connect(c)), MapLog(c), []);
    assert [Connect(c)] + [MapLog(c)] == [Connect(c), MapLog(c)];
  }
}
