/**
 The updater's `process_vote` and any number of `read` calls as interleaved steps over the shared maps. One step
 is what happens under one lock acquisition; a step that has to wait for a lock does nothing when it is tried.
 */
module ReadInterleaving {
  import opened Types
  import opened OrderStatistics
  import opened ReadBounds
  import opened Evidence
  import opened ClientApi
  import opened ViewProperties
  import opened CrossClient
  import Spec = ClientView

  /** Where the updater is with a vote. Outside `Idle` it holds the write lock on `mrt`. */
  datatype Updating = Idle | Locked(v: Vote) | Noted(v: Vote) | Raised(v: Vote)

  /**
   Where a read is. `HoldsRows` holds the read lock on `tsps`, `Reading` also the one on `ts_vote_msg`. `at` counts
   the votes the updater had noted when the read ended.
   */
  datatype Reader =
    | Away
    | HoldsRows
    | Reading(t: seq<TxRecord>, rperf: Option<Timestamp>)
    | Replied(data: PodData, at: nat)
    | Panicked(at: nat)

  /** `noted` collects the votes that were offered to the evidence store, in order. */
  datatype System = System(
    mrt: Row,
    tsps: map<Transaction, Row>,
    msgs: map<Timestamp, Vote>,
    updating: Updating,
    readers: map<nat, Reader>,
    noted: seq<Vote>)

  /** Reading a map walks over it in some order. */
  datatype Action =
    | Begin(v: Vote)
    | Note
    | Raise
    | WriteRow
    | TakeRows(id: nat)
    | TakeMessages(id: nat)
    | ReadRecord(id: nat, tx: Transaction, order: seq<ReplicaId>)
    | ReadPerf(id: nat)
    | Reply(id: nat, order: seq<ReplicaId>)

  /** The parameters of a client. */
  datatype Config = Config(env: Spec.Env, alpha: nat, beta: nat)

  function ReaderAt(s: System, id: nat): Reader {
    if id in s.readers then s.readers[id] else Away
  }

  predicate MessagesWritable(s: System) {
    forall id <- s.readers :: !s.readers[id].Reading?
  }

  predicate RowsWritable(s: System) {
    forall id <- s.readers :: !s.readers[id].Reading? && !s.readers[id].HoldsRows?
  }

  function UpdaterStep(s: System, a: Action): System {
    match (a, s.updating)
    case (Begin(v), Idle) =>
      if v.transaction.Some? && v.replicaId in s.mrt then s.(updating := Locked(v)) else s
    case (Note, Locked(v)) =>
      if MessagesWritable(s) then
        s.(msgs := Spec.RecordVote(s.msgs, v.timestamp, v), updating := Noted(v), noted := s.noted + [v])
      else s
    case (Raise, Noted(v)) =>
      if v.replicaId !in s.mrt || v.transaction.None? || v.timestamp < s.mrt[v.replicaId] then s.(updating := Idle)
      else s.(mrt := s.mrt[v.replicaId := v.timestamp],
              updating := if IsHeartbeat(v.transaction.value) then Idle else Raised(v))
    case (WriteRow, Raised(v)) =>
      if RowsWritable(s) && v.transaction.Some? then
        s.(tsps := Spec.RecordTimestamp(s.tsps, v.transaction.value, v.replicaId, v.timestamp), updating := Idle)
      else s
    case _ => s
  }

  function LookupAll(msgs: map<Timestamp, Vote>, timestamps: seq<Timestamp>): (votes: seq<Vote>)
    ensures |votes| == |timestamps|
    ensures forall i :: 0 <= i < |votes| ==> votes[i] == Lookup(msgs, timestamps[i])
  {
    seq(|timestamps|, i requires 0 <= i < |timestamps| => Lookup(msgs, timestamps[i]))
  }

  /** The record built from a row in some iteration order; `None` where the upper bound panics. */
  ghost function RecordFrom(c: Config, row: Row, msgs: map<Timestamp, Vote>, tx: Transaction, order: seq<ReplicaId>): Option<TxRecord>
    requires forall r <- order :: r in row
  {
    var rmax := MaxOf(SortedValues(row), c.alpha, c.beta);
    if rmax.None? then None
    else
      var timestamps := ValuesIn(order, row);
      Some(TxRecord(tx, MinOf(SortedValues(row), c.alpha, c.beta), rmax.value, Some(Middle(timestamps)), LookupAll(msgs, timestamps)))
  }

  /** Reading `mrt`, for a record, for `rperf` or for `cpp`, waits until the updater has released it. */
  ghost function TakeRecord(c: Config, s: System, t: seq<TxRecord>, tx: Transaction, order: seq<ReplicaId>): Reader {
    if s.updating.Idle? && tx in s.tsps && !HasRecord(t, tx) && Enumerates(order, s.tsps[tx].Keys) then
      var rec := RecordFrom(c, s.tsps[tx], s.msgs, tx, order);
      if rec.None? then Panicked(|s.noted|) else Reading(t + [rec.value], None)
    else Reading(t, None)
  }

  ghost function TakePerf(c: Config, s: System, t: seq<TxRecord>): Reader {
    if s.updating.Idle? && AllRecorded(t, s.tsps.Keys) then Reading(t, Some(MinOf(SortedValues(s.mrt), c.alpha, c.beta)))
    else Reading(t, None)
  }

  ghost function TakeRecent(s: System, t: seq<TxRecord>, rperf: Timestamp, order: seq<ReplicaId>): Reader {
    if s.updating.Idle? && Enumerates(order, s.mrt.Keys) then
      Replied(PodData(t, rperf, LookupAll(s.msgs, ValuesIn(order, s.mrt))), |s.noted|)
    else Reading(t, Some(rperf))
  }

  ghost predicate AllRecorded(t: seq<TxRecord>, txs: set<Transaction>) {
    forall tx <- txs :: HasRecord(t, tx)
  }

  /** Records first, then `rperf`, then the votes for `cpp`. */
  ghost function ReadOn(c: Config, s: System, t: seq<TxRecord>, rperf: Option<Timestamp>, a: Action): Reader {
    if rperf.None? && a.ReadRecord? then TakeRecord(c, s, t, a.tx, a.order)
    else if rperf.None? && a.ReadPerf? then TakePerf(c, s, t)
    else if rperf.Some? && a.Reply? then TakeRecent(s, t, rperf.value, a.order)
    else Reading(t, rperf)
  }

  ghost function ReaderStep(c: Config, s: System, reader: Reader, a: Action): Reader {
    match reader
    case Away => if a.TakeRows? then HoldsRows else reader
    case HoldsRows => if a.TakeMessages? then Reading([], None) else reader
    case Reading(t, rperf) => ReadOn(c, s, t, rperf, a)
    case _ => reader
  }

  ghost function Do(c: Config, s: System, a: Action): System {
    if a.Begin? || a.Note? || a.Raise? || a.WriteRow? then UpdaterStep(s, a)
    else s.(readers := s.readers[a.id := ReaderStep(c, s, ReaderAt(s, a.id), a)])
  }

  function Start(env: Spec.Env): System {
    System(map r: ReplicaId | r in env.replicas :: 0, map[], map[], Idle, map[], [])
  }

  ghost function Execute(c: Config, actions: seq<Action>): System {
    if actions == [] then Start(c.env) else Do(c, Execute(c, actions[..|actions| - 1]), actions[|actions| - 1])
  }

  // --- The updater's steps are processing votes in turn ---

  /** The noted votes without the one still being processed. */
  function Done(s: System): seq<Vote> {
    if (s.updating.Noted? || s.updating.Raised?) && s.noted != [] then s.noted[..|s.noted| - 1] else s.noted
  }

  ghost predicate LastNoted(s: System, v: Vote) {
    s.noted != [] && s.noted[|s.noted| - 1] == v
  }

  /** The shared maps are those of `view` plus what is already done for the current vote. */
  ghost predicate Midway(s: System, view: Spec.View) {
    && s.tsps == view.tsps
    && match s.updating
       case Idle => s.mrt == view.mrt && s.msgs == view.tsVoteMsg
       case Locked(v) => s.mrt == view.mrt && s.msgs == view.tsVoteMsg
       case Noted(v) => s.mrt == view.mrt && s.msgs == Spec.RecordVote(view.tsVoteMsg, v.timestamp, v)
       case Raised(v) =>
         && s.msgs == Spec.RecordVote(view.tsVoteMsg, v.timestamp, v)
         && v.transaction.Some? && !IsHeartbeat(v.transaction.value)
         && v.replicaId in view.mrt && v.timestamp >= view.mrt[v.replicaId] && s.mrt == view.mrt[v.replicaId := v.timestamp]
  }

  /** At each step the shared maps are those of processing the finished votes in turn, plus part of the current one. */
  ghost predicate UpdaterInv(env: Spec.Env, s: System) {
    && Applicable(env, s.noted)
    && (s.updating.Locked? ==> s.updating.v.transaction.Some? && s.updating.v.replicaId in env.replicas)
    && (s.updating.Noted? || s.updating.Raised? ==> LastNoted(s, s.updating.v))
    && Midway(s, ProcessAll(env, Done(s)))
  }

  lemma BeginKeepsUpdater(env: Spec.Env, s: System, v: Vote)
    requires UpdaterInv(env, s)
    ensures UpdaterInv(env, UpdaterStep(s, Begin(v)))
  {
  }

  lemma NoteKeepsUpdater(env: Spec.Env, s: System)
    requires UpdaterInv(env, s)
    ensures UpdaterInv(env, UpdaterStep(s, Note))
  {
    if s.updating.Locked? && MessagesWritable(s) {
      assert Done(UpdaterStep(s, Note)) == (s.noted + [s.updating.v])[..|s.noted|] == s.noted == Done(s);
    }
  }

  lemma FinishedVote(env: Spec.Env, s: System, v: Vote)
    requires LastNoted(s, v) && (s.updating.Noted? || s.updating.Raised?)
    ensures ProcessAll(env, s.noted) == Process(ProcessAll(env, Done(s)), v)
  {
  }

  lemma RaiseMidway(s: System, view: Spec.View)
    requires Midway(s, view) && s.updating.Noted? && s.updating.v.transaction.Some? && s.updating.v.replicaId in view.mrt
    ensures var s' := UpdaterStep(s, Raise);
            Midway(s', if s'.updating.Idle? then Process(view, s.updating.v) else view)
  {
  }

  lemma WriteRowMidway(s: System, view: Spec.View)
    requires Midway(s, view) && s.updating.Raised?
    ensures var s' := UpdaterStep(s, WriteRow);
            Midway(s', if s'.updating.Idle? then Process(view, s.updating.v) else view)
  {
  }

  /** A step that ends the processing of a vote, or takes it one further, keeps the invariant. */
  lemma StepKeepsUpdater(env: Spec.Env, s: System, s': System, v: Vote)
    requires UpdaterInv(env, s) && (s.updating.Noted? || s.updating.Raised?) && s.updating.v == v && s'.noted == s.noted
    requires s'.updating.Idle? || s'.updating == Raised(v) || s' == s
    requires Midway(s', if s'.updating.Idle? then Process(ProcessAll(env, Done(s)), v) else ProcessAll(env, Done(s)))
    ensures UpdaterInv(env, s')
  {
    if s'.updating.Idle? {
      FinishedVote(env, s, v);
      assert Done(s') == s.noted;
    } else {
      assert Done(s') == Done(s);
    }
  }

  lemma NotedIsApplicable(env: Spec.Env, s: System)
    requires UpdaterInv(env, s) && (s.updating.Noted? || s.updating.Raised?)
    ensures s.updating.v.transaction.Some? && s.updating.v.replicaId in env.replicas
  {
    assert s.updating.v in s.noted;
  }

  lemma RaiseKeepsUpdater(env: Spec.Env, s: System)
    requires UpdaterInv(env, s)
    ensures UpdaterInv(env, UpdaterStep(s, Raise))
  {
    if s.updating.Noted? {
      NotedIsApplicable(env, s);
      RaiseMidway(s, ProcessAll(env, Done(s)));
      StepKeepsUpdater(env, s, UpdaterStep(s, Raise), s.updating.v);
    }
  }

  lemma WriteRowKeepsUpdater(env: Spec.Env, s: System)
    requires UpdaterInv(env, s)
    ensures UpdaterInv(env, UpdaterStep(s, WriteRow))
  {
    if s.updating.Raised? {
      WriteRowMidway(s, ProcessAll(env, Done(s)));
      StepKeepsUpdater(env, s, UpdaterStep(s, WriteRow), s.updating.v);
    }
  }

  // --- What every interleaving keeps ---

  /** At most one record per transaction, each as the view says. */
  ghost predicate Gathered(c: Config, view: Spec.View, t: seq<TxRecord>) {
    RecordsOf(t, view, c.alpha, c.beta) && forall i, j :: 0 <= i < j < |t| ==> t[i].tx != t[j].tx
  }

  /** What a read has gathered so far, or ended with, is what `view` says. */
  ghost predicate ReadsView(c: Config, view: Spec.View, reader: Reader) {
    match reader
    case Away => true
    case HoldsRows => true
    case Reading(t, rperf) =>
      Gathered(c, view, t) && (rperf.Some? ==> EachOnce(t, view.tsps.Keys) && rperf.value == RPerf(view, c.alpha, c.beta))
    case Replied(data, _) => ReplyOf(data, view, c.alpha, c.beta)
    case Panicked(_) => exists tx :: Panics(view, tx, c.alpha, c.beta)
  }

  /** How many votes are noted at the moment that a read is about: now, until it ends. */
  function Moment(noted: seq<Vote>, reader: Reader): nat {
    if reader.Replied? || reader.Panicked? then reader.at else |noted|
  }

  /** While a read holds its locks no vote is noted, so the view that it reads does not change under it. */
  ghost predicate ReaderInv(c: Config, noted: seq<Vote>, reader: Reader) {
    Moment(noted, reader) <= |noted| && ReadsView(c, ProcessAll(c.env, noted[..Moment(noted, reader)]), reader)
  }

  ghost predicate ReadersInv(c: Config, noted: seq<Vote>, readers: map<nat, Reader>) {
    forall id <- readers :: ReaderInv(c, noted, readers[id])
  }

  ghost predicate SystemInv(c: Config, s: System) {
    UpdaterInv(c.env, s) && ReadersInv(c, s.noted, s.readers)
  }

  lemma ReaderSurvivesNote(c: Config, noted: seq<Vote>, v: Vote, reader: Reader)
    requires ReaderInv(c, noted, reader) && !reader.Reading?
    ensures ReaderInv(c, noted + [v], reader)
  {
    if reader.Replied? || reader.Panicked? {
      assert (noted + [v])[..reader.at] == noted[..reader.at];
    }
  }

  lemma UpdaterStepKeepsInv(c: Config, s: System, a: Action)
    requires SystemInv(c, s)
    ensures SystemInv(c, UpdaterStep(s, a))
  {
    match a
    case Begin(v) => BeginKeepsUpdater(c.env, s, v);
    case Note =>
      NoteKeepsUpdater(c.env, s);
      if s.updating.Locked? && MessagesWritable(s) {
        forall id <- s.readers ensures ReaderInv(c, s.noted + [s.updating.v], s.readers[id]) {
          ReaderSurvivesNote(c, s.noted, s.updating.v, s.readers[id]);
        }
      }
    case Raise => RaiseKeepsUpdater(c.env, s);
    case WriteRow => WriteRowKeepsUpdater(c.env, s);
    case _ =>
  }

  lemma LookedUpVotesCarry(env: Spec.Env, view: Spec.View, timestamps: seq<Timestamp>)
    requires ViewInv(env, view) && forall ts <- timestamps :: ts == 0 || ts in view.tsVoteMsg
    ensures CarryTimestamps(LookupAll(view.tsVoteMsg, timestamps), timestamps, view.tsVoteMsg)
  {
  }

  /** The record built under the locks is the one that the view calls for. */
  lemma BuiltRecord(c: Config, view: Spec.View, tx: Transaction, order: seq<ReplicaId>)
    requires ViewInv(c.env, view) && tx in view.tsps && Enumerates(order, view.tsps[tx].Keys)
    ensures var rec := RecordFrom(c, view.tsps[tx], view.tsVoteMsg, tx, order);
            && (rec.None? <==> Panics(view, tx, c.alpha, c.beta))
            && (rec.Some? ==> rec.value.tx == tx && RecordOf(rec.value, view, c.alpha, c.beta))
  {
    var row := view.tsps[tx];
    var timestamps := ValuesIn(order, row);
    forall ts <- timestamps ensures ts in view.tsVoteMsg {
      var i :| 0 <= i < |timestamps| && timestamps[i] == ts;
      assert HeldWithVote(view.tsps, view.mrt, view.tsVoteMsg, tx, order[i]);
    }
    LookedUpVotesCarry(c.env, view, timestamps);
  }

  lemma OneRecordMore(c: Config, view: Spec.View, t: seq<TxRecord>, rec: TxRecord)
    requires Gathered(c, view, t) && !HasRecord(t, rec.tx) && RecordOf(rec, view, c.alpha, c.beta)
    ensures Gathered(c, view, t + [rec])
  {
    RecordsSnoc(t, view, c.alpha, c.beta, rec);
    forall i | 0 <= i < |t| ensures t[i].tx != rec.tx {
      assert HasRecord(t, t[i].tx);
    }
  }

  /** Between two votes the shared maps are those of the view. */
  ghost predicate Shows(s: System, view: Spec.View) {
    s.updating.Idle? ==> s.mrt == view.mrt && s.tsps == view.tsps && s.msgs == view.tsVoteMsg
  }

  lemma TakeRecordReadsView(c: Config, s: System, view: Spec.View, t: seq<TxRecord>, tx: Transaction, order: seq<ReplicaId>)
    requires ViewInv(c.env, view) && Shows(s, view) && ReadsView(c, view, Reading(t, None))
    ensures ReadsView(c, view, TakeRecord(c, s, t, tx, order))
  {
    if s.updating.Idle? && tx in s.tsps && !HasRecord(t, tx) && Enumerates(order, s.tsps[tx].Keys) {
      BuiltRecord(c, view, tx, order);
      var rec := RecordFrom(c, s.tsps[tx], s.msgs, tx, order);
      if rec.Some? {
        OneRecordMore(c, view, t, rec.value);
      }
    }
  }

  lemma RecordsAreOfKnown(t: seq<TxRecord>, view: Spec.View, alpha: nat, beta: nat)
    requires RecordsOf(t, view, alpha, beta)
    ensures forall tx :: HasRecord(t, tx) ==> tx in view.tsps
  {
    forall tx | HasRecord(t, tx) ensures tx in view.tsps {
      var i :| 0 <= i < |t| && t[i].tx == tx;
      assert RecordOf(t[i], view, alpha, beta);
    }
  }

  lemma AllOnce(c: Config, view: Spec.View, t: seq<TxRecord>)
    requires Gathered(c, view, t) && AllRecorded(t, view.tsps.Keys)
    ensures EachOnce(t, view.tsps.Keys)
  {
    RecordsAreOfKnown(t, view, c.alpha, c.beta);
  }

  lemma TakePerfReadsView(c: Config, s: System, view: Spec.View, t: seq<TxRecord>)
    requires Shows(s, view) && ReadsView(c, view, Reading(t, None))
    ensures ReadsView(c, view, TakePerf(c, s, t))
  {
    if s.updating.Idle? && AllRecorded(t, s.tsps.Keys) {
      AllOnce(c, view, t);
      assert TakePerf(c, s, t) == Reading(t, Some(RPerf(view, c.alpha, c.beta)));
    }
  }

  lemma TakeRecentIs(s: System, view: Spec.View, t: seq<TxRecord>, rperf: Timestamp, order: seq<ReplicaId>)
    requires s.updating.Idle? && Shows(s, view) && Enumerates(order, view.mrt.Keys)
    ensures TakeRecent(s, t, rperf, order) ==
            Replied(PodData(t, rperf, LookupAll(view.tsVoteMsg, ValuesIn(order, view.mrt))), |s.noted|)
  {
  }

  lemma TakeRecentReadsView(c: Config, s: System, view: Spec.View, t: seq<TxRecord>, rperf: Timestamp, order: seq<ReplicaId>)
    requires ViewInv(c.env, view) && Shows(s, view) && ReadsView(c, view, Reading(t, Some(rperf)))
    ensures ReadsView(c, view, TakeRecent(s, t, rperf, order))
  {
    if s.updating.Idle? && Enumerates(order, s.mrt.Keys) {
      RecentReply(c, view, t, rperf, order);
      TakeRecentIs(s, view, t, rperf, order);
    }
  }

  lemma RecentVotesCarry(env: Spec.Env, view: Spec.View, order: seq<ReplicaId>)
    requires ViewInv(env, view) && Enumerates(order, view.mrt.Keys)
    ensures CarryTimestamps(LookupAll(view.tsVoteMsg, ValuesIn(order, view.mrt)), ValuesIn(order, view.mrt), view.tsVoteMsg)
  {
    LookedUpVotesCarry(env, view, ValuesIn(order, view.mrt));
  }

  lemma RecentReply(c: Config, view: Spec.View, t: seq<TxRecord>, rperf: Timestamp, order: seq<ReplicaId>)
    requires ViewInv(c.env, view) && Enumerates(order, view.mrt.Keys)
    requires EachOnce(t, view.tsps.Keys) && RecordsOf(t, view, c.alpha, c.beta) && rperf == RPerf(view, c.alpha, c.beta)
    ensures ReplyOf(PodData(t, rperf, LookupAll(view.tsVoteMsg, ValuesIn(order, view.mrt))), view, c.alpha, c.beta)
  {
    RecentVotesCarry(c.env, view, order);
    ReplyFrom(view, PodData(t, rperf, LookupAll(view.tsVoteMsg, ValuesIn(order, view.mrt))), order, c.alpha, c.beta);
  }

  lemma ReplyFrom(view: Spec.View, data: PodData, order: seq<ReplicaId>, alpha: nat, beta: nat)
    requires EachOnce(data.t, view.tsps.Keys) && RecordsOf(data.t, view, alpha, beta) && data.rperf == RPerf(view, alpha, beta)
    requires Enumerates(order, view.mrt.Keys) && CarryTimestamps(data.cpp, ValuesIn(order, view.mrt), view.tsVoteMsg)
    ensures ReplyOf(data, view, alpha, beta)
  {
  }

  lemma ReadOnReadsView(c: Config, s: System, view: Spec.View, t: seq<TxRecord>, rperf: Option<Timestamp>, a: Action)
    requires ViewInv(c.env, view) && Shows(s, view) && ReadsView(c, view, Reading(t, rperf))
    ensures ReadsView(c, view, ReadOn(c, s, t, rperf, a))
  {
    if rperf.Some? {
      if a.Reply? {
        TakeRecentReadsView(c, s, view, t, rperf.value, a.order);
      }
    } else if a.ReadRecord? {
      TakeRecordReadsView(c, s, view, t, a.tx, a.order);
    } else if a.ReadPerf? {
      TakePerfReadsView(c, s, view, t);
    }
  }

  lemma ReadOnIsNow(c: Config, s: System, t: seq<TxRecord>, rperf: Option<Timestamp>, a: Action)
    ensures Moment(s.noted, ReadOn(c, s, t, rperf, a)) == |s.noted|
  {
  }

  lemma ReadsNow(c: Config, noted: seq<Vote>, reader: Reader)
    requires Moment(noted, reader) == |noted|
    ensures ReaderInv(c, noted, reader) <==> ReadsView(c, ProcessAll(c.env, noted), reader)
  {
    assert noted[..|noted|] == noted;
  }

  lemma UpdaterShows(env: Spec.Env, s: System)
    requires UpdaterInv(env, s)
    ensures Shows(s, ProcessAll(env, s.noted))
  {
  }

  lemma UpdaterIgnoresReaders(env: Spec.Env, s: System, readers: map<nat, Reader>)
    requires UpdaterInv(env, s)
    ensures UpdaterInv(env, s.(readers := readers))
  {
  }

  lemma ReadOnKeepsInv(c: Config, s: System, t: seq<TxRecord>, rperf: Option<Timestamp>, a: Action)
    requires Shows(s, ProcessAll(c.env, s.noted)) && ReaderInv(c, s.noted, Reading(t, rperf))
    ensures ReaderInv(c, s.noted, ReadOn(c, s, t, rperf, a))
  {
    ReadsNow(c, s.noted, Reading(t, rperf));
    ProcessAllKeepsInv(c.env, s.noted);
    ReadOnReadsView(c, s, ProcessAll(c.env, s.noted), t, rperf, a);
    ReadOnIsNow(c, s, t, rperf, a);
    ReadsNow(c, s.noted, ReadOn(c, s, t, rperf, a));
  }

  lemma ReaderStepKeepsInv(c: Config, s: System, reader: Reader, a: Action)
    requires Shows(s, ProcessAll(c.env, s.noted)) && ReaderInv(c, s.noted, reader)
    ensures ReaderInv(c, s.noted, ReaderStep(c, s, reader, a))
  {
    if reader.Reading? {
      ReadOnKeepsInv(c, s, reader.t, reader.rperf, a);
    }
  }

  lemma OneReaderMoves(c: Config, noted: seq<Vote>, readers: map<nat, Reader>, id: nat, reader: Reader)
    requires ReadersInv(c, noted, readers) && ReaderInv(c, noted, reader)
    ensures ReadersInv(c, noted, readers[id := reader])
  {
  }

  lemma DoKeepsInv(c: Config, s: System, a: Action)
    requires SystemInv(c, s)
    ensures SystemInv(c, Do(c, s, a))
  {
    if a.Begin? || a.Note? || a.Raise? || a.WriteRow? {
      UpdaterStepKeepsInv(c, s, a);
    } else {
      var reader := ReaderStep(c, s, ReaderAt(s, a.id), a);
      assert ReaderInv(c, s.noted, ReaderAt(s, a.id));
      UpdaterShows(c.env, s);
      ReaderStepKeepsInv(c, s, ReaderAt(s, a.id), a);
      OneReaderMoves(c, s.noted, s.readers, a.id, reader);
      UpdaterIgnoresReaders(c.env, s, s.readers[a.id := reader]);
    }
  }

  lemma {:induction false} ExecuteKeepsInv(c: Config, actions: seq<Action>)
    ensures SystemInv(c, Execute(c, actions))
  {
    if actions == [] {
    } else {
      ExecuteKeepsInv(c, actions[..|actions| - 1]);
      DoKeepsInv(c, Execute(c, actions[..|actions| - 1]), actions[|actions| - 1]);
    }
  }

  // --- What a reply is worth ---

  /**
   A read that completes is atomic: whatever the updater and other reads do meanwhile, its reply is what reading the
   view at one moment between two votes gives, the view being that of the votes noted when the read ended. A read
   that panics would have panicked on that view too.
   */
  lemma CompletedReadsAreAtomic(c: Config, actions: seq<Action>, id: nat)
    ensures Applicable(c.env, Execute(c, actions).noted)
    ensures var s := Execute(c, actions);
            match ReaderAt(s, id)
            case Replied(data, at) => at <= |s.noted| && ReplyOf(data, ProcessAll(c.env, s.noted[..at]), c.alpha, c.beta)
            case Panicked(at) => at <= |s.noted| && exists tx :: Panics(ProcessAll(c.env, s.noted[..at]), tx, c.alpha, c.beta)
            case _ => true
  {
    ExecuteKeepsInv(c, actions);
    assert id in Execute(c, actions).readers ==> ReaderInv(c, Execute(c, actions).noted, Execute(c, actions).readers[id]);
  }

  lemma ReplyIsOfView(c: Config, actions: seq<Action>, id: nat)
    requires ReaderAt(Execute(c, actions), id).Replied?
    ensures var s := Execute(c, actions);
            var reader := ReaderAt(s, id);
            reader.at <= |s.noted| && ReplyOf(reader.data, ProcessAll(c.env, s.noted[..reader.at]), c.alpha, c.beta)
  {
    CompletedReadsAreAtomic(c, actions, id);
  }

  /**
   Whatever the updater does while a read is under way, everything in its reply can be computed again from the
   timestamps of the votes in the reply: `rperf` from `cpp`, and rmin, rmax and rconf of each record from its `ctx`.
   */
  lemma RepliesAreSupported(c: Config, actions: seq<Action>, id: nat)
    requires ReaderAt(Execute(c, actions), id).Replied?
    ensures SupportedReply(ReaderAt(Execute(c, actions), id).data, c.alpha, c.beta)
  {
    ReplyIsOfView(c, actions, id);
    var s := Execute(c, actions);
    var reader := ReaderAt(s, id);
    ReplyIsSupported(reader.data, ProcessAll(c.env, s.noted[..reader.at]), c.alpha, c.beta);
  }

  /** Uninterrupted, the updater's steps do to the shared maps exactly what processing the vote does. */
  lemma StepsAreProcessVote(view: Spec.View, v: Vote, noted: seq<Vote>)
    requires v.transaction.Some? && v.replicaId in view.mrt
    ensures var s := System(view.mrt, view.tsps, view.tsVoteMsg, Idle, map[], noted);
            var s' := UpdaterStep(UpdaterStep(UpdaterStep(UpdaterStep(s, Begin(v)), Note), Raise), WriteRow);
            var after := Spec.ProcessVote(view, v.replicaId, v.transaction.value, v.timestamp, v);
            s' == System(after.mrt, after.tsps, after.tsVoteMsg, Idle, map[], noted + [v])
  {
    var msgs := Spec.RecordVote(view.tsVoteMsg, v.timestamp, v);
    var s2 := UpdaterStep(UpdaterStep(System(view.mrt, view.tsps, view.tsVoteMsg, Idle, map[], noted), Begin(v)), Note);
    assert s2 == System(view.mrt, view.tsps, msgs, Noted(v), map[], noted + [v]);
    var s3 := UpdaterStep(s2, Raise);
    if v.timestamp < view.mrt[v.replicaId] {
      assert s3 == System(view.mrt, view.tsps, msgs, Idle, map[], noted + [v]);
    } else {
      var raised: Row := view.mrt[v.replicaId := v.timestamp];
      assert s3 == System(raised, view.tsps, msgs, if IsHeartbeat(v.transaction.value) then Idle else Raised(v), map[], noted + [v]);
    }
  }

  /** The updater processes the votes that its receive loop applies when these arrive. */
  ghost predicate UpdaterReceives(c: Config, actions: seq<Action>, arrivals: seq<Vote>) {
    Execute(c, actions).noted <= AppliedVotes(c.env, arrivals)
  }

  /** The view behind a reply follows the streams of the replicas that do not equivocate. */
  lemma ReplyFollows(c: Config, actions: seq<Action>, at: nat, arrivals: seq<Vote>, faulty: set<ReplicaId>, streams: Streams)
    requires UpdaterReceives(c, actions, arrivals) && at <= |Execute(c, actions).noted|
    requires forall r: ReplicaId :: r in c.env.replicas && r !in faulty ==> Honest(c.env, arrivals, r, streams(r))
    ensures FollowsAll(c.env, ProcessAll(c.env, Execute(c, actions).noted[..at]), faulty, streams)
  {
    var log := Execute(c, actions).noted[..at];
    forall r: ReplicaId | r in c.env.replicas && r !in faulty ensures Follows(ProcessAll(c.env, log), r, streams(r)) {
      PartOfRunFollows(c.env, arrivals, log, r, streams(r));
    }
  }

  /**
   Past-perfection of replies: if the reply of a read that runs beside client B's updater has no record of `tx`, then
   no client A ever holds alpha or more timestamps for `tx` with a median below the reply's `rperf`.
   */
  lemma RepliesArePastPerfect(c: Config, actions: seq<Action>, id: nat, a: seq<Vote>, b: seq<Vote>, faulty: set<ReplicaId>, streams: Streams, tx: Transaction)
    requires Params(c.alpha, c.beta, |c.env.replicas|)
    requires |faulty| <= c.beta && OneNetwork(c.env, a, b, faulty, streams) && UpdaterReceives(c, actions, b)
    requires ReaderAt(Execute(c, actions), id).Replied? && !HasRecord(ReaderAt(Execute(c, actions), id).data.t, tx)
    requires |Spec.RowOf(Spec.Run(c.env, a).view, tx)| >= c.alpha
    ensures Middle(SortedValues(Spec.RowOf(Spec.Run(c.env, a).view, tx))) >= ReaderAt(Execute(c, actions), id).data.rperf
  {
    var va, at := Spec.Run(c.env, a).view, ReaderAt(Execute(c, actions), id).at;
    CompletedReadsAreAtomic(c, actions, id);
    var view := ProcessAll(c.env, Execute(c, actions).noted[..at]);
    ReplyCouldHold(c, actions, at, a, b, faulty, streams, tx);
    RPerfIsExact(view, tx, c.alpha, c.beta, RPerf(view, c.alpha, c.beta));
  }

  lemma ReplyCouldHold(c: Config, actions: seq<Action>, at: nat, a: seq<Vote>, b: seq<Vote>, faulty: set<ReplicaId>, streams: Streams, tx: Transaction)
    requires Params(c.alpha, c.beta, |c.env.replicas|)
    requires |faulty| <= c.beta && OneNetwork(c.env, a, b, faulty, streams) && UpdaterReceives(c, actions, b)
    requires at <= |Execute(c, actions).noted| && |Spec.RowOf(Spec.Run(c.env, a).view, tx)| >= c.alpha
    ensures var view := ProcessAll(c.env, Execute(c, actions).noted[..at]);
            && Configured(view, c.alpha, c.beta)
            && CouldHold(view, tx, faulty, Spec.RowOf(Spec.Run(c.env, a).view, tx), c.alpha, c.beta)
  {
    var log := Execute(c, actions).noted[..at];
    var view := ProcessAll(c.env, log);
    ReplyFollows(c, actions, at, b, faulty, streams);
    RunFollowsAll(c.env, a, faulty, streams);
    RunKeepsInv(c.env, a);
    ProcessAllKeepsInv(c.env, log);
    assert |view.mrt| == |view.mrt.Keys| == |c.env.replicas.Keys| == |c.env.replicas|;
    ViewsCouldHold(c.env, view, Spec.Run(c.env, a).view, faulty, streams, tx, c.alpha, c.beta);
  }

  /** A record with a vote for every replica encloses, in rmin and rmax, the median of every other client. */
  lemma CompleteRecordsBound(c: Config, actions: seq<Action>, id: nat, i: nat, a: seq<Vote>, b: seq<Vote>, faulty: set<ReplicaId>, streams: Streams)
    requires Params(c.alpha, c.beta, |c.env.replicas|)
    requires |faulty| <= c.beta && OneNetwork(c.env, a, b, faulty, streams) && UpdaterReceives(c, actions, b)
    requires var reader := ReaderAt(Execute(c, actions), id);
             && reader.Replied? && i < |reader.data.t| && |reader.data.t[i].ctx| == |c.env.replicas|
             && |Spec.RowOf(Spec.Run(c.env, a).view, reader.data.t[i].tx)| >= c.alpha
    ensures var rec := ReaderAt(Execute(c, actions), id).data.t[i];
            rec.rmin <= Middle(SortedValues(Spec.RowOf(Spec.Run(c.env, a).view, rec.tx))) <= rec.rmax
  {
    var reader, other := ReaderAt(Execute(c, actions), id), Spec.Run(c.env, a).view;
    ReplyIsOfView(c, actions, id);
    var view := ProcessAll(c.env, Execute(c, actions).noted[..reader.at]);
    ReplyCouldHold(c, actions, reader.at, a, b, faulty, streams, reader.data.t[i].tx);
    ReplyRecordBounds(c, view, reader.data, i, faulty, Spec.RowOf(other, reader.data.t[i].tx));
  }

  lemma ReplyRecordBounds(c: Config, view: Spec.View, data: PodData, i: nat, faulty: set<ReplicaId>, other: Row)
    requires Configured(view, c.alpha, c.beta) && ReplyOf(data, view, c.alpha, c.beta) && i < |data.t|
    requires |data.t[i].ctx| == |c.env.replicas| && view.mrt.Keys == c.env.replicas.Keys
    requires CouldHold(view, data.t[i].tx, faulty, other, c.alpha, c.beta)
    ensures data.t[i].rmin <= Middle(SortedValues(other)) <= data.t[i].rmax
  {
    RecordInReply(data, view, c.alpha, c.beta, i);
    CompleteRecordBounds(c, view, data.t[i], faulty, other);
  }

  lemma RecordInReply(data: PodData, view: Spec.View, alpha: nat, beta: nat, i: nat)
    requires ReplyOf(data, view, alpha, beta) && i < |data.t|
    ensures RecordOf(data.t[i], view, alpha, beta)
  {
  }

  lemma CompleteRecordBounds(c: Config, view: Spec.View, rec: TxRecord, faulty: set<ReplicaId>, other: Row)
    requires Configured(view, c.alpha, c.beta) && RecordOf(rec, view, c.alpha, c.beta)
    requires |rec.ctx| == |c.env.replicas| && view.mrt.Keys == c.env.replicas.Keys
    requires CouldHold(view, rec.tx, faulty, other, c.alpha, c.beta)
    ensures rec.rmin <= Middle(SortedValues(other)) <= rec.rmax
  {
    assert |view.mrt| == |view.mrt.Keys| == |c.env.replicas.Keys| == |c.env.replicas|;
    RecordCoversItsRow(rec, view, c.alpha, c.beta);
    SameSizeSameKeys(view.tsps[rec.tx], view.mrt);
    ReportedBoundsAreExactWhenComplete(view, rec.tx, c.alpha, c.beta);
    LowerBoundExactly(view, rec.tx, c.alpha, c.beta, rec.rmin);
    UpperBoundExactly(view, rec.tx, c.alpha, c.beta, rec.rmax);
  }

  lemma RecordCoversItsRow(rec: TxRecord, view: Spec.View, alpha: nat, beta: nat)
    requires RecordOf(rec, view, alpha, beta)
    ensures |rec.ctx| == |view.tsps[rec.tx]|
  {
    var row := view.tsps[rec.tx];
    var order :| Enumerates(order, row.Keys) && rec.rconf == Some(Middle(ValuesIn(order, row)))
              && CarryTimestamps(rec.ctx, ValuesIn(order, row), view.tsVoteMsg);
    OrderCovers(order, row);
  }

  lemma OrderCovers(order: seq<ReplicaId>, row: Row)
    requires Enumerates(order, row.Keys)
    ensures |order| == |row|
  {
    ValuesCount(order, row, 0);
  }

  lemma SameSizeSameKeys(row: Row, mrt: Row)
    requires row.Keys <= mrt.Keys && |row| >= |mrt|
    ensures row.Keys == mrt.Keys
  {
    var rest := mrt.Keys - row.Keys;
    assert mrt.Keys == row.Keys + rest;
    assert |mrt| == |mrt.Keys| && |row| == |row.Keys|;
    assert rest == {};
  }
}
