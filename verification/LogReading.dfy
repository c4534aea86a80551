/**
 One writer and a resumable reader on the same log file, interleaved. Bytes reach the file in pieces, so a reader
 may map the file while a frame is half written.
 */
module LogReading {
  import opened Types
  import opened ReplicaLog

  /** The file, the entries whose last byte has reached it, and the payload whose frame is being written. */
  datatype LogFile = LogFile(entries: seq<Bytes>, writing: Option<Bytes>, written: nat, file: Bytes)

  const EMPTY_LOG := LogFile([], None, 0, [])

  /** Appends run one at a time. */
  function BeginAppend(f: LogFile, payload: Bytes): LogFile {
    if f.writing.None? then f.(writing := Some(payload), written := 0) else f
  }

  /** The next `n` bytes of the current frame reach the file. */
  function WriteBytes(f: LogFile, n: nat): LogFile {
    if f.writing.None? || f.written > |Frame(f.writing.value)| then f
    else
      var frame := Frame(f.writing.value);
      if f.written + n >= |frame| then LogFile(f.entries + [f.writing.value], None, 0, f.file + frame[f.written..])
      else f.(written := f.written + n, file := f.file + frame[f.written..f.written + n])
  }

  /** A log iterator with the entries it has yielded so far. */
  datatype Reader = Reader(mmap: Bytes, position: nat, fileSize: nat, yielded: seq<Bytes>)

  function OpenReader(size: nat, file: Bytes): Reader {
    Reader(file, 0, size, [])
  }

  function RefreshReader(r: Reader, size: nat, file: Bytes): Reader {
    var (mmap, position, fileSize) := RefreshMap(r.mmap, r.position, r.fileSize, size, file);
    r.(mmap := mmap, position := position, fileSize := fileSize)
  }

  function NextItem(r: Reader): (Item, Reader) {
    var (item, position) := ItemAt(r.mmap, r.position);
    (item, r.(position := position, yielded := if item.Entry? then r.yielded + [item.payload] else r.yielded))
  }

  /** The log with the entry that is being written, of which the file is an initial part. */
  ghost function Intended(f: LogFile): seq<Bytes> {
    if f.writing.None? then f.entries else f.entries + [f.writing.value]
  }

  /** The file holds the frames of the entries and the part of one more that has been written. */
  ghost predicate BytesInv(f: LogFile) {
    match f.writing
    case None => f.file == EncodeLog(f.entries)
    case Some(p) => f.written < |Frame(p)| && f.file == EncodeLog(f.entries) + Frame(p)[..f.written]
  }

  /** And every payload is short enough for its length prefix. */
  ghost predicate FileInv(f: LogFile) {
    Fit(Intended(f)) && BytesInv(f)
  }

  /** The reader stands on a frame boundary, and has yielded exactly the entries before it. */
  ghost predicate ReaderInv(f: LogFile, r: Reader) {
    && r.mmap <= f.file
    && r.fileSize <= |r.mmap|
    && r.yielded <= f.entries
    && r.position == |EncodeLog(r.yielded)| <= |r.mmap|
  }

  lemma BeginAppendKeepsInv(f: LogFile, payload: Bytes)
    requires BytesInv(f)
    ensures BytesInv(BeginAppend(f, payload))
  {
    if f.writing.None? {
      assert Frame(payload)[..0] == [];
    }
  }

  lemma WriteBytesKeepsInv(f: LogFile, n: nat)
    requires BytesInv(f)
    ensures BytesInv(WriteBytes(f, n)) && Intended(WriteBytes(f, n)) == Intended(f)
    ensures f.file <= WriteBytes(f, n).file && f.entries <= WriteBytes(f, n).entries
  {
    if f.writing.Some? {
      var p, frame := f.writing.value, Frame(f.writing.value);
      if f.written + n >= |frame| {
        assert frame[..f.written] + frame[f.written..] == frame;
        EncodeLogSnoc(f.entries, p);
        Associate(EncodeLog(f.entries), frame[..f.written], frame[f.written..]);
      } else {
        assert frame[..f.written] + frame[f.written..f.written + n] == frame[..f.written + n];
        Associate(EncodeLog(f.entries), frame[..f.written], frame[f.written..f.written + n]);
      }
    }
  }

  lemma ReaderSurvivesWriting(f: LogFile, f': LogFile, r: Reader)
    requires ReaderInv(f, r) && f.file <= f'.file && f.entries <= f'.entries
    ensures ReaderInv(f', r)
  {
  }

  lemma OpenKeepsInv(f: LogFile, size: nat)
    requires size <= |f.file|
    ensures ReaderInv(f, OpenReader(size, f.file))
  {
  }

  lemma RefreshKeepsInv(f: LogFile, r: Reader, size: nat)
    requires ReaderInv(f, r) && size <= |f.file|
    ensures ReaderInv(f, RefreshReader(r, size, f.file))
    ensures RefreshReader(r, size, f.file).position == r.position
  {
  }

  /** At the boundary after `yielded`, an initial part of the log yields its next entry or nothing. */
  lemma ItemAfter(all: seq<Bytes>, mmap: Bytes, yielded: seq<Bytes>)
    requires Fit(all) && yielded <= all && mmap <= EncodeLog(all) && |EncodeLog(yielded)| <= |mmap|
    ensures var (item, position) := ItemAt(mmap, |EncodeLog(yielded)|);
            if item.Entry? then
              && |yielded| < |all| && item.payload == all[|yielded|]
              && position == |EncodeLog(yielded + [item.payload])| <= |mmap|
            else position == |EncodeLog(yielded)|
    ensures ItemAt(mmap, |EncodeLog(yielded)|).0.Entry? && |yielded| + 1 == |all| ==> |EncodeLog(all)| <= |mmap|
  {
    var i := |yielded|;
    assert yielded == all[..i];
    ItemAtBoundary(all, mmap, i);
    if i < |all| {
      SplitAt(all, i);
      assert i + 1 == |all| ==> all[..i + 1] == all;
    }
  }

  lemma FileIsPartOfIntended(f: LogFile)
    requires FileInv(f)
    ensures f.entries <= Intended(f) && f.file <= EncodeLog(Intended(f))
    ensures f.writing.Some? ==> |f.file| < |EncodeLog(Intended(f))|
  {
    if f.writing.Some? {
      EncodeLogSnoc(f.entries, f.writing.value);
    }
  }

  lemma OnlyWrittenEntries(f: LogFile, mmap: Bytes, yielded: seq<Bytes>)
    requires FileInv(f) && yielded <= f.entries && mmap <= f.file && |EncodeLog(yielded)| <= |mmap|
    ensures var (item, position) := ItemAt(mmap, |EncodeLog(yielded)|);
            if item.Entry? then
              && |yielded| < |f.entries| && item.payload == f.entries[|yielded|]
              && position == |EncodeLog(yielded + [item.payload])| <= |mmap|
            else position == |EncodeLog(yielded)|
  {
    FileIsPartOfIntended(f);
    ItemAfter(Intended(f), mmap, yielded);
  }

  lemma PrefixSnoc(part: seq<Bytes>, whole: seq<Bytes>)
    requires part <= whole && |part| < |whole|
    ensures part + [whole[|part|]] <= whole
  {
  }

  /** Reading on: the item is the next entry of the log, or nothing was yielded and the reader did not move. */
  lemma NextKeepsInv(f: LogFile, r: Reader)
    requires FileInv(f) && ReaderInv(f, r)
    ensures var (item, r') := NextItem(r);
            && ReaderInv(f, r')
            && if item.Entry? then
                 && |r.yielded| < |f.entries| && item.payload == f.entries[|r.yielded|]
                 && r'.yielded == r.yielded + [item.payload] && r'.mmap == r.mmap
               else r' == r
  {
    OnlyWrittenEntries(f, r.mmap, r.yielded);
    if |r.yielded| < |f.entries| {
      PrefixSnoc(r.yielded, f.entries);
    }
  }

  // --- Every interleaving of writing, reading and refreshing ---

  datatype System = System(log: LogFile, sizeRead: Option<nat>, reader: Option<Reader>)

  datatype Action =
    | Append(payload: Bytes)
    | Write(n: nat)
    | ReadSize
    | MapFile
    | Next

  /** Opening and refreshing both read the file size first and map the file afterwards. Payloads fit their prefix. */
  function Do(s: System, a: Action): System {
    match a
    case Append(payload) => if |payload| < TWO_32 then s.(log := BeginAppend(s.log, payload)) else s
    case Write(n) => s.(log := WriteBytes(s.log, n))
    case ReadSize => s.(sizeRead := Some(|s.log.file|))
    case MapFile =>
      if s.sizeRead.None? then s
      else
        var size := s.sizeRead.value;
        s.(sizeRead := None, reader := Some(
             if s.reader.None? then OpenReader(size, s.log.file) else RefreshReader(s.reader.value, size, s.log.file)))
    case Next =>
      if s.reader.None? then s else s.(reader := Some(NextItem(s.reader.value).1))
  }

  function Execute(actions: seq<Action>): System {
    if actions == [] then System(EMPTY_LOG, None, None)
    else Do(Execute(actions[..|actions| - 1]), actions[|actions| - 1])
  }

  ghost predicate SystemInv(s: System) {
    && FileInv(s.log)
    && (s.sizeRead.Some? ==> s.sizeRead.value <= |s.log.file|)
    && (s.reader.Some? ==> ReaderInv(s.log, s.reader.value))
  }

  lemma DoKeepsInv(s: System, a: Action)
    requires SystemInv(s)
    ensures SystemInv(Do(s, a))
  {
    match a
    case Append(payload) => BeginAppendKeepsInv(s.log, payload);
    case Write(n) => WriteBytesKeepsInv(s.log, n);
    case ReadSize =>
    case MapFile =>
      if s.sizeRead.Some? {
        if s.reader.None? {
          OpenKeepsInv(s.log, s.sizeRead.value);
        } else {
          RefreshKeepsInv(s.log, s.reader.value, s.sizeRead.value);
        }
      }
    case Next =>
      if s.reader.Some? {
        NextKeepsInv(s.log, s.reader.value);
      }
  }

  /**
   Whatever the interleaving, the reader stands on a frame boundary, has yielded exactly an initial part of the
   appended entries, in order and unaltered, and never records a file size beyond what it has mapped.
   */
  lemma {:induction false} ReadingIsResumable(actions: seq<Action>)
    ensures SystemInv(Execute(actions))
  {
    if actions == [] {
    } else {
      ReadingIsResumable(actions[..|actions| - 1]);
      DoKeepsInv(Execute(actions[..|actions| - 1]), actions[|actions| - 1]);
    }
  }

  // --- What reading on yields ---

  /** The mapping holds exactly the first `n` frames, and perhaps part of the next. */
  ghost predicate MapsFrames(f: LogFile, mmap: Bytes, n: nat) {
    var all := Intended(f);
    && n <= |f.entries| <= |all|
    && |EncodeLog(all[..n])| <= |mmap| <= |EncodeLog(all)|
    && (n < |all| ==> |mmap| < |EncodeLog(all[..n + 1])|)
  }

  /** A file as it is holds all of its entries. */
  lemma FileMapsAll(f: LogFile)
    requires BytesInv(f)
    ensures MapsFrames(f, f.file, |f.entries|)
  {
    var all, n := Intended(f), |f.entries|;
    assert all[..n] == f.entries;
    if f.writing.Some? {
      EncodeLogSnoc(f.entries, f.writing.value);
      assert all[..n + 1] == all;
    }
  }

  /** What a mapping holds does not change when more is written. */
  lemma MapsFramesSurvives(f: LogFile, f': LogFile, mmap: Bytes, n: nat)
    requires MapsFrames(f, mmap, n) && f.entries <= f'.entries && Intended(f) <= Intended(f') && |f'.entries| <= |Intended(f')|
    ensures MapsFrames(f', mmap, n)
  {
    var all, all' := Intended(f), Intended(f');
    assert all'[..n] == all[..n];
    assert all == all'[..|all|];
    EncodeLogConcat(all, all'[|all|..]);
    assert all + all'[|all|..] == all';
    if n < |all| {
      assert all'[..n + 1] == all[..n + 1];
    } else if n < |all'| {
      EncodeLogStep(all', n);
      assert all'[..n] == all;
    }
  }

  /** Boundaries tell how many entries lie before them. */
  lemma BoundaryOrder(all: seq<Bytes>, i: nat, n: nat, size: nat)
    requires i <= |all| && n <= |all| && |EncodeLog(all[..i])| <= size
    requires |EncodeLog(all[..n])| <= size && (n < |all| ==> size < |EncodeLog(all[..n + 1])|)
    ensures i <= n
    ensures i < |all| ==> (|EncodeLog(all[..i + 1])| <= size <==> i < n)
  {
    if n < i {
      BoundariesGrow(all, n + 1, i);
    } else if i < n {
      BoundariesGrow(all, i + 1, n);
    }
  }

  /** A reader goes on exactly as long as it has not yielded all entries that lie wholly in its mapping. */
  lemma NextYieldsIff(f: LogFile, r: Reader, n: nat)
    requires FileInv(f) && ReaderInv(f, r) && MapsFrames(f, r.mmap, n)
    ensures |r.yielded| <= n
    ensures NextItem(r).0.Entry? <==> |r.yielded| < n
  {
    var all, i := Intended(f), |r.yielded|;
    FileIsPartOfIntended(f);
    assert r.yielded == all[..i];
    BoundaryOrder(all, i, n, |r.mmap|);
    ItemAtBoundary(all, r.mmap, i);
  }

  function Repeat(a: Action, k: nat): (actions: seq<Action>)
    ensures |actions| == k
  {
    if k == 0 then [] else Repeat(a, k - 1) + [a]
  }

  ghost predicate HasRead(f: LogFile, r: Reader, r': Reader, n: nat, k: nat)
    requires n <= |f.entries|
  {
    && r'.mmap == r.mmap && r'.fileSize == r.fileSize
    && r'.yielded == f.entries[..if |r.yielded| + k < n then |r.yielded| + k else n]
  }

  lemma ReadOneMore(f: LogFile, start: Reader, r: Reader, n: nat, k: nat)
    requires FileInv(f) && ReaderInv(f, r) && MapsFrames(f, r.mmap, n)
    requires |start.yielded| <= n && HasRead(f, start, r, n, k)
    ensures HasRead(f, start, NextItem(r).1, n, k + 1)
  {
    NextYieldsIff(f, r, n);
    NextKeepsInv(f, r);
    var i := |r.yielded|;
    if i < n {
      assert f.entries[..i + 1] == f.entries[..i] + [f.entries[i]];
    }
  }

  lemma NextSnoc(actions: seq<Action>, k: nat)
    ensures Execute(actions + Repeat(Next, k + 1)) == Do(Execute(actions + Repeat(Next, k)), Next)
  {
    assert (actions + Repeat(Next, k + 1))[..|actions| + k] == actions + Repeat(Next, k);
  }

  /** From `s` to `s'` the reader has yielded the next `k` entries, or all those that are mapped. */
  ghost predicate ReadOn(s: System, s': System, n: nat, k: nat) {
    && s.reader.Some? && s'.reader.Some? && s'.log == s.log && n <= |s.log.entries|
    && HasRead(s.log, s.reader.value, s'.reader.value, n, k)
  }

  lemma ReadOnOneMore(s: System, s': System, n: nat, k: nat)
    requires ReadOn(s, s', n, k) && SystemInv(s') && MapsFrames(s.log, s.reader.value.mmap, n) && |s.reader.value.yielded| <= n
    ensures ReadOn(s, Do(s', Next), n, k + 1)
  {
    ReadOneMore(s.log, s.reader.value, s'.reader.value, n, k);
  }

  lemma NothingReadYet(s: System, n: nat)
    requires SystemInv(s) && s.reader.Some? && MapsFrames(s.log, s.reader.value.mmap, n)
    ensures |s.reader.value.yielded| <= n && ReadOn(s, s, n, 0)
  {
    NextYieldsIff(s.log, s.reader.value, n);
    assert s.reader.value.yielded == s.log.entries[..|s.reader.value.yielded|];
  }

  /** What `k` calls of the iterator yield. */
  lemma {:induction false} ReadingOn(actions: seq<Action>, n: nat, k: nat)
    requires var s := Execute(actions); s.reader.Some? && MapsFrames(s.log, s.reader.value.mmap, n)
    ensures ReadOn(Execute(actions), Execute(actions + Repeat(Next, k)), n, k)
  {
    ReadingIsResumable(actions);
    NothingReadYet(Execute(actions), n);
    if k == 0 {
      assert actions + Repeat(Next, 0) == actions;
    } else {
      ReadingOn(actions, n, k - 1);
      ReadingIsResumable(actions + Repeat(Next, k - 1));
      NextSnoc(actions, k - 1);
      ReadOnOneMore(Execute(actions), Execute(actions + Repeat(Next, k - 1)), n, k - 1);
    }
  }

  /** Where the reader stands: at the start until it is opened. */
  function Yielded(s: System): seq<Bytes> {
    if s.reader.Some? then s.reader.value.yielded else []
  }

  lemma ReadSizeThenMap(actions: seq<Action>)
    ensures var s := Execute(actions);
            Execute(actions + [ReadSize, MapFile]) == Do(s.(sizeRead := Some(|s.log.file|)), MapFile)
  {
    var all := actions + [ReadSize, MapFile];
    assert all[..|actions| + 1] == actions + [ReadSize];
    assert (actions + [ReadSize])[..|actions|] == actions;
  }

  lemma RefreshMaps(actions: seq<Action>)
    ensures var s, s' := Execute(actions), Execute(actions + [ReadSize, MapFile]);
            && s'.log == s.log && s'.reader.Some? && s'.reader.value.yielded == Yielded(s)
            && (s.reader.Some? ==> s'.reader.value.position == s.reader.value.position)
            && if s.reader.None? || |s.log.file| > s.reader.value.fileSize then
                 s'.reader.value.mmap == s.log.file && s'.reader.value.fileSize == |s.log.file|
               else s'.reader.value.mmap == s.reader.value.mmap
  {
    var s := Execute(actions);
    ReadingIsResumable(actions);
    ReadSizeThenMap(actions);
    if s.reader.Some? {
      RefreshKeepsInv(s.log, s.reader.value, |s.log.file|);
    }
  }

  /** After opening or refreshing, the whole file is mapped. */
  lemma RefreshMapsFile(actions: seq<Action>)
    ensures var s, s' := Execute(actions), Execute(actions + [ReadSize, MapFile]);
            && s'.log == s.log && s'.reader.Some? && s'.reader.value.mmap == s.log.file
            && s'.reader.value.yielded == Yielded(s)
            && (s.reader.Some? ==> s'.reader.value.position == s.reader.value.position)
  {
    var s := Execute(actions);
    ReadingIsResumable(actions);
    RefreshMaps(actions);
    if s.reader.Some? && |s.log.file| <= s.reader.value.fileSize {
      assert s.reader.value.mmap == s.log.file;
    }
  }

  /**
   From any point of any run: after opening or refreshing, enough calls of the iterator have yielded every entry whose
   frame is wholly in the file, each of them once and in order. This also goes for a file in the middle of a write.
   */
  lemma RefreshedReaderYieldsTheRest(actions: seq<Action>, k: nat)
    requires |Execute(actions).log.entries| <= |Yielded(Execute(actions))| + k
    ensures var s, s' := Execute(actions), Execute(actions + [ReadSize, MapFile] + Repeat(Next, k));
            && s'.log == s.log && s'.reader.Some? && s'.reader.value.mmap == s.log.file
            && s'.reader.value.yielded == s.log.entries
  {
    var s := Execute(actions);
    ReadingIsResumable(actions);
    RefreshMapsFile(actions);
    FileMapsAll(s.log);
    ReadingOn(actions + [ReadSize, MapFile], |s.log.entries|, k);
    assert s.log.entries[..|s.log.entries|] == s.log.entries;
  }

  /** If no frame is half written then, reading on to the end yields the remaining entries and ends normally. */
  lemma RefreshedReaderSeesTheRest(actions: seq<Action>)
    requires Execute(actions).log.writing.None?
    ensures var s, r := Execute(actions), Execute(actions + [ReadSize, MapFile]).reader;
            && r.Some? && r.value.mmap == s.log.file && r.value.yielded == Yielded(s) <= s.log.entries
            && (s.reader.Some? ==> r.value.position == s.reader.value.position)
            && ReadAll(r.value.mmap, r.value.position) == (s.log.entries[|Yielded(s)|..], End, |s.log.file|)
  {
    RefreshMapsFile(actions);
    ReadingIsResumable(actions + [ReadSize, MapFile]);
    var s := Execute(actions + [ReadSize, MapFile]);
    var entries, n, i := s.log.entries, |s.log.file|, |s.reader.value.yielded|;
    assert s.log.file[..n] == s.log.file;
    assert entries[..i] == s.reader.value.yielded;
    assert entries[..|entries|] == entries;
    assert WholeFrames(entries, n) == |entries|;
    ReadFromBoundary(entries, n, i);
    assert entries[i..|entries|] == entries[i..];
  }

  /** A reader may find any part of a frame: it is told so, and does not move. */
  lemma HalfWrittenFrameIsSeen(payload: Bytes, k: nat)
    requires |payload| < TWO_32 && 0 < k < |Frame(payload)|
    ensures var s := Execute([Append(payload), Write(k), ReadSize, MapFile]);
            && s.reader.Some? && s.reader.value.mmap == Frame(payload)[..k]
            && NextItem(s.reader.value) == (if k < 4 then TornPrefix else TornEntry, s.reader.value)
  {
    var all := [Append(payload), Write(k), ReadSize, MapFile];
    assert all[..2] == [Append(payload), Write(k)] && [Append(payload), Write(k)][..1] == [Append(payload)] && [Append(payload)][..0] == [];
    var log := LogFile([], Some(payload), k, Frame(payload)[..k]);
    assert Execute([Append(payload)]) == System(BeginAppend(EMPTY_LOG, payload), None, None);
    assert Frame(payload)[0..k] == Frame(payload)[..k];
    assert Execute([Append(payload), Write(k)]) == System(log, None, None);
    RefreshMaps([Append(payload), Write(k)]);
    assert [Append(payload), Write(k)] + [ReadSize, MapFile] == all;
    ItemAtFrame([], payload, [], Frame(payload)[..k]);
    assert [] + Frame(payload) + [] == Frame(payload);
    ReadingIsResumable(all);
  }
}
