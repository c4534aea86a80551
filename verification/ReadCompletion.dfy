/**
 When a read can still complete. A read takes `tsps` and `ts_vote_msg` before `mrt`; the updater takes `mrt` first and
 waits for the other two. So each can come to wait for the other.
 */
module ReadCompletion {
  import opened Types
  import opened OrderStatistics
  import opened ClientApi
  import opened ReadInterleaving

  predicate Ended(reader: Reader) {
    reader.Replied? || reader.Panicked?
  }

  /** The updater is done with `v` without writing a row: the vote is outdated or a heartbeat. */
  predicate SkipsRow(s: System, v: Vote) {
    || v.replicaId !in s.mrt || v.transaction.None?
    || v.timestamp < s.mrt[v.replicaId] || v.transaction.value.data == HEARTBEAT
  }

  /** The updater can finish the vote it is at: no read holds a lock that it still has to take. */
  predicate CanFinish(s: System) {
    match s.updating
    case Idle => true
    case Locked(v) => MessagesWritable(s) && (SkipsRow(s, v) || RowsWritable(s))
    case Noted(v) => SkipsRow(s, v) || RowsWritable(s)
    case Raised(v) => RowsWritable(s)
  }

  // --- Continuing a run ---

  ghost function Continue(c: Config, s: System, actions: seq<Action>): System {
    if actions == [] then s else Do(c, Continue(c, s, actions[..|actions| - 1]), actions[|actions| - 1])
  }

  lemma ContinueSnoc(c: Config, s: System, actions: seq<Action>, a: Action)
    ensures Continue(c, s, actions + [a]) == Do(c, Continue(c, s, actions), a)
  {
    assert (actions + [a])[..|actions|] == actions;
  }

  lemma ContinueOnce(c: Config, s: System, a: Action)
    ensures Continue(c, s, [a]) == Do(c, s, a)
  {
    assert [a][..0] == [];
  }

  lemma {:induction false} ContinueConcat(c: Config, s: System, xs: seq<Action>, ys: seq<Action>)
    ensures Continue(c, s, xs + ys) == Continue(c, Continue(c, s, xs), ys)
  {
    if ys == [] {
      assert xs + ys == xs;
    } else {
      var front := ys[..|ys| - 1];
      ContinueConcat(c, s, xs, front);
      assert (xs + ys)[..|xs + ys| - 1] == xs + front;
    }
  }

  lemma {:induction false} ExecuteContinues(c: Config, earlier: seq<Action>, later: seq<Action>)
    ensures Execute(c, earlier + later) == Continue(c, Execute(c, earlier), later)
  {
    if later == [] {
      assert earlier + later == earlier;
    } else {
      var front := later[..|later| - 1];
      ExecuteContinues(c, earlier, front);
      assert (earlier + later)[..|earlier + later| - 1] == earlier + front;
    }
  }

  // --- Once the updater is stuck ---

  lemma UpdaterStaysStuck(s: System, a: Action)
    requires !CanFinish(s)
    ensures !CanFinish(UpdaterStep(s, a)) && UpdaterStep(s, a).readers == s.readers
  {
    var s' := UpdaterStep(s, a);
    if a.Note? && s.updating.Locked? && MessagesWritable(s) {
      assert SkipsRow(s', s.updating.v) == SkipsRow(s, s.updating.v);
      assert RowsWritable(s') == RowsWritable(s);
    } else if a.Raise? && s.updating.Noted? {
      assert RowsWritable(s') == RowsWritable(s);
    }
  }

  /** While the updater is at a vote, reads only take locks. */
  predicate HoldsNoLess(before: Reader, after: Reader) {
    && (before.Reading? ==> after == before)
    && (before.HoldsRows? ==> after.HoldsRows? || after.Reading?)
    && (Ended(after) ==> after == before)
  }

  lemma ReadersOnlyTake(c: Config, s: System, reader: Reader, a: Action)
    requires !s.updating.Idle?
    ensures HoldsNoLess(reader, ReaderStep(c, s, reader, a))
  {
  }

  lemma TakingKeepsStuck(s: System, id: nat, reader: Reader)
    requires !CanFinish(s) && HoldsNoLess(ReaderAt(s, id), reader)
    ensures !CanFinish(s.(readers := s.readers[id := reader]))
  {
    var s' := s.(readers := s.readers[id := reader]);
    if !RowsWritable(s) {
      var other :| other in s.readers && (s.readers[other].Reading? || s.readers[other].HoldsRows?);
      assert s'.readers[other].Reading? || s'.readers[other].HoldsRows?;
    }
    if !MessagesWritable(s) {
      var other :| other in s.readers && s.readers[other].Reading?;
      assert s'.readers[other].Reading?;
    }
  }

  lemma StepKeepsStuck(c: Config, s: System, a: Action, id: nat)
    requires !CanFinish(s)
    ensures !CanFinish(Do(c, s, a)) && HoldsNoLess(ReaderAt(s, id), ReaderAt(Do(c, s, a), id))
  {
    if a.Begin? || a.Note? || a.Raise? || a.WriteRow? {
      UpdaterStaysStuck(s, a);
    } else {
      ReadersOnlyTake(c, s, ReaderAt(s, a.id), a);
      TakingKeepsStuck(s, a.id, ReaderStep(c, s, ReaderAt(s, a.id), a));
    }
  }

  /** Once the updater cannot finish its vote it never will, and no read ends any more, begun already or not. */
  lemma {:induction false} StuckForEver(c: Config, s: System, later: seq<Action>, id: nat)
    requires !CanFinish(s)
    ensures !CanFinish(Continue(c, s, later)) && !Continue(c, s, later).updating.Idle?
    ensures Ended(ReaderAt(Continue(c, s, later), id)) ==> ReaderAt(Continue(c, s, later), id) == ReaderAt(s, id)
  {
    if later == [] {
    } else {
      var front := later[..|later| - 1];
      StuckForEver(c, s, front, id);
      StepKeepsStuck(c, Continue(c, s, front), later[|later| - 1], id);
    }
  }

  /** A read holds both its locks while the updater holds `mrt` and waits for one of them. */
  ghost predicate Blocked(s: System, id: nat) {
    ReaderAt(s, id).Reading? && (s.updating.Locked? || s.updating.Raised?)
  }

  /** The updater, the read and the shared maps are as they were. */
  ghost predicate StillThere(s: System, s': System, id: nat) {
    s'.updating == s.updating && ReaderAt(s', id) == ReaderAt(s, id) && s'.mrt == s.mrt && s'.tsps == s.tsps && s'.msgs == s.msgs
  }

  lemma BlockedStep(c: Config, s: System, id: nat, a: Action)
    requires Blocked(s, id)
    ensures StillThere(s, Do(c, s, a), id)
  {
    assert !MessagesWritable(s) && !RowsWritable(s) by {
      assert id in s.readers && s.readers[id].Reading?;
    }
  }

  /** In that case not even part of a vote is processed any more: the shared maps stay as they are. */
  lemma {:induction false} BlockedForEver(c: Config, s: System, later: seq<Action>, id: nat)
    requires Blocked(s, id)
    ensures StillThere(s, Continue(c, s, later), id)
  {
    if later == [] {
    } else {
      var front := later[..|later| - 1];
      BlockedForEver(c, s, front, id);
      BlockedStep(c, Continue(c, s, front), id, later[|later| - 1]);
    }
  }

  // --- As long as it is not ---

  /** A vote whose row is about to be written is one for a transaction. */
  ghost predicate RowToWrite(s: System) {
    s.updating.Raised? ==> s.updating.v.transaction.Some?
  }

  /** The updater finishes its vote. */
  lemma FinishVote(c: Config, s: System) returns (later: seq<Action>)
    requires CanFinish(s) && RowToWrite(s)
    ensures Continue(c, s, later).updating.Idle? && Continue(c, s, later).readers == s.readers
  {
    match s.updating
    case Idle => later := [];
    case Raised(v) =>
      later := [WriteRow];
      ContinueOnce(c, s, WriteRow);
    case Noted(v) => later := FinishNoted(c, s, v);
    case Locked(v) =>
      var s' := UpdaterStep(s, Note);
      assert SkipsRow(s', v) == SkipsRow(s, v) && RowsWritable(s') == RowsWritable(s);
      var rest := FinishNoted(c, s', v);
      later := [Note] + rest;
      ContinueOnce(c, s, Note);
      ContinueConcat(c, s, [Note], rest);
  }

  lemma FinishNoted(c: Config, s: System, v: Vote) returns (later: seq<Action>)
    requires s.updating == Noted(v) && (SkipsRow(s, v) || RowsWritable(s))
    ensures Continue(c, s, later).updating.Idle? && Continue(c, s, later).readers == s.readers
  {
    var s' := UpdaterStep(s, Raise);
    ContinueOnce(c, s, Raise);
    if s'.updating.Idle? {
      later := [Raise];
    } else {
      assert RowsWritable(s') == RowsWritable(s);
      later := [Raise, WriteRow];
      assert [Raise] + [WriteRow] == later;
      ContinueSnoc(c, s, [Raise], WriteRow);
    }
  }

  ghost function Unread(s: System, t: seq<TxRecord>): set<Transaction> {
    set tx | tx in s.tsps && !HasRecord(t, tx)
  }

  /** With the updater at rest, a read builds its remaining records, unless one of them panics. */
  lemma {:induction false} FinishRecords(c: Config, s: System, id: nat) returns (later: seq<Action>)
    requires s.updating.Idle? && ReaderAt(s, id).Reading? && ReaderAt(s, id).rperf.None?
    ensures var s' := Continue(c, s, later);
            && s'.updating.Idle? && s'.tsps == s.tsps
            && (ReaderAt(s', id).Panicked?
                || (ReaderAt(s', id).Reading? && ReaderAt(s', id).rperf.None? && AllRecorded(ReaderAt(s', id).t, s.tsps.Keys)))
    decreases |Unread(s, ReaderAt(s, id).t)|
  {
    var t := ReaderAt(s, id).t;
    if Unread(s, t) == {} {
      later := [];
      assert forall tx <- s.tsps.Keys :: tx !in Unread(s, t);
    } else {
      var tx :| tx in Unread(s, t);
      var a := ReadRecord(id, tx, SomeOrder(s.tsps[tx].Keys));
      var s' := Do(c, s, a);
      ContinueOnce(c, s, a);
      if ReaderAt(s', id).Panicked? {
        later := [a];
      } else {
        var t' := ReaderAt(s', id).t;
        RecordAdded(c, s, t, tx, SomeOrder(s.tsps[tx].Keys));
        FewerUnread(s, t, t', tx);
        assert Unread(s', t') == Unread(s, t');
        var rest := FinishRecords(c, s', id);
        later := [a] + rest;
        ContinueConcat(c, s, [a], rest);
      }
    }
  }

  lemma RecordAdded(c: Config, s: System, t: seq<TxRecord>, tx: Transaction, order: seq<ReplicaId>)
    requires s.updating.Idle? && tx in s.tsps && !HasRecord(t, tx) && Enumerates(order, s.tsps[tx].Keys)
    ensures var reader := TakeRecord(c, s, t, tx, order);
            || reader.Panicked?
            || (reader.Reading? && reader.rperf.None? && |reader.t| == |t| + 1 && reader.t[..|t|] == t && reader.t[|t|].tx == tx)
  {
  }

  lemma FewerUnread(s: System, t: seq<TxRecord>, t': seq<TxRecord>, tx: Transaction)
    requires tx in Unread(s, t) && |t'| == |t| + 1 && t'[..|t|] == t && t'[|t|].tx == tx
    ensures |Unread(s, t')| < |Unread(s, t)|
  {
    assert HasRecord(t', tx);
    forall other | HasRecord(t, other) ensures HasRecord(t', other) {
      var i :| 0 <= i < |t| && t[i].tx == other;
      assert t'[i].tx == other;
    }
    SmallerSet(Unread(s, t'), Unread(s, t), tx);
  }

  lemma SmallerSet(a: set<Transaction>, b: set<Transaction>, tx: Transaction)
    requires a <= b && tx in b && tx !in a
    ensures |a| < |b|
  {
    assert b == a + (b - a) && tx in b - a;
  }

  /** Then it reads `mrt` twice and replies. */
  lemma FinishReply(c: Config, s: System, id: nat) returns (later: seq<Action>)
    requires s.updating.Idle? && ReaderAt(s, id).Reading?
    requires ReaderAt(s, id).rperf.None? ==> AllRecorded(ReaderAt(s, id).t, s.tsps.Keys)
    ensures Ended(ReaderAt(Continue(c, s, later), id))
  {
    var order := SomeOrder(s.mrt.Keys);
    if ReaderAt(s, id).rperf.Some? {
      later := [Reply(id, order)];
      ContinueOnce(c, s, Reply(id, order));
    } else {
      later := [ReadPerf(id)] + [Reply(id, order)];
      ContinueOnce(c, s, ReadPerf(id));
      ContinueSnoc(c, s, [ReadPerf(id)], Reply(id, order));
    }
  }

  lemma FinishReading(c: Config, s: System, id: nat) returns (later: seq<Action>)
    requires s.updating.Idle? && ReaderAt(s, id).Reading?
    ensures Ended(ReaderAt(Continue(c, s, later), id))
  {
    if ReaderAt(s, id).rperf.Some? {
      later := FinishReply(c, s, id);
    } else {
      var records := FinishRecords(c, s, id);
      var s' := Continue(c, s, records);
      if ReaderAt(s', id).Panicked? {
        later := records;
      } else {
        var rest := FinishReply(c, s', id);
        later := records + rest;
        ContinueConcat(c, s, records, rest);
      }
    }
  }

  /** With the updater at rest, any read can go through all its steps. */
  lemma FinishRead(c: Config, s: System, id: nat) returns (later: seq<Action>)
    requires s.updating.Idle? && !Ended(ReaderAt(s, id))
    ensures Ended(ReaderAt(Continue(c, s, later), id))
  {
    var taken: seq<Action> := match ReaderAt(s, id) {
      case Away => [TakeRows(id)] + [TakeMessages(id)]
      case HoldsRows => [TakeMessages(id)]
      case _ => []
    };
    if ReaderAt(s, id).Away? {
      ContinueOnce(c, s, TakeRows(id));
      ContinueSnoc(c, s, [TakeRows(id)], TakeMessages(id));
    } else if ReaderAt(s, id).HoldsRows? {
      ContinueOnce(c, s, TakeMessages(id));
    }
    var s' := Continue(c, s, taken);
    assert s'.updating.Idle? && ReaderAt(s', id).Reading?;
    var rest := FinishReading(c, s', id);
    later := taken + rest;
    ContinueConcat(c, s, taken, rest);
  }

  /**
   From any point of any run, a read that has not ended yet, begun already or not, can still end if and only if the
   updater can finish the vote it is at.
   */
  lemma ReadCanEndIff(c: Config, earlier: seq<Action>, id: nat)
    requires !Ended(ReaderAt(Execute(c, earlier), id))
    ensures (exists later :: Ended(ReaderAt(Execute(c, earlier + later), id))) <==> CanFinish(Execute(c, earlier))
  {
    var s := Execute(c, earlier);
    if CanFinish(s) {
      ExecuteKeepsInv(c, earlier);
      var finish := FinishVote(c, s);
      var read := FinishRead(c, Continue(c, s, finish), id);
      ContinueConcat(c, s, finish, read);
      ExecuteContinues(c, earlier, finish + read);
    } else if later :| Ended(ReaderAt(Execute(c, earlier + later), id)) {
      ExecuteContinues(c, earlier, later);
      StuckForEver(c, s, later, id);
    }
  }

  /** For every vote, a read that takes its two locks after the updater's first step leaves both stuck. */
  lemma ReadsCanBlock(c: Config, v: Vote)
    requires v.transaction.Some? && v.replicaId in c.env.replicas
    ensures !CanFinish(Execute(c, [Begin(v), TakeRows(0), TakeMessages(0)]))
  {
    var s := Start(c.env).(updating := Locked(v), readers := map[0 := HoldsRows]);
    FirstLockTaken(c, v);
    assert [Begin(v), TakeRows(0), TakeMessages(0)][..2] == [Begin(v), TakeRows(0)];
    var s' := s.(readers := map[0 := Reading([], None)]);
    assert Execute(c, [Begin(v), TakeRows(0), TakeMessages(0)]) == s';
    assert 0 in s'.readers && s'.readers[0].Reading?;
  }

  lemma FirstLockTaken(c: Config, v: Vote)
    requires v.transaction.Some? && v.replicaId in c.env.replicas
    ensures Execute(c, [Begin(v), TakeRows(0)]) == Start(c.env).(updating := Locked(v), readers := map[0 := HoldsRows])
  {
    assert [Begin(v), TakeRows(0)][..1] == [Begin(v)] && [Begin(v)][..0] == [];
    assert Execute(c, [Begin(v)]) == Start(c.env).(updating := Locked(v));
  }

  /** For a vote that needs a row, the first lock is enough. */
  lemma OneLockCanBlock(c: Config, v: Vote)
    requires v.transaction.Some? && v.replicaId in c.env.replicas && v.transaction.value.data != HEARTBEAT
    ensures !CanFinish(Execute(c, [Begin(v), TakeRows(0)]))
  {
    FirstLockTaken(c, v);
    var s := Execute(c, [Begin(v), TakeRows(0)]);
    assert 0 in s.readers && s.readers[0].HoldsRows?;
  }
}
