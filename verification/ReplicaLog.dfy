/** The replica's append-only log: length-prefixed frames, a writer, and readers that can resume. */
module ReplicaLog {
  import opened Types
  import opened MessageLayout

  /** The length prefix is the payload length cast to 32 bits, little endian. */
  function Frame(payload: Bytes): (f: Bytes)
    ensures |f| == 4 + |payload|
  {
    LittleEndian(|payload| % TWO_32, 4) + payload
  }

  function EncodeLog(entries: seq<Bytes>): Bytes {
    if entries == [] then [] else EncodeLog(entries[..|entries| - 1]) + Frame(entries[|entries| - 1])
  }

  /** What one call of the iterator yields. The two errors tell a torn prefix from a torn entry. */
  datatype Item = End | Entry(payload: Bytes) | TornPrefix | TornEntry

  /** The item at `position` of the mapped bytes, and the position afterwards. */
  function ItemAt(mmap: Bytes, position: nat): (Item, nat) {
    if position >= |mmap| then (End, position)
    else if position + 4 > |mmap| then (TornPrefix, position)
    else
      var body := position + 4;
      var len := FromLittleEndian(mmap[position..body]);
      if body + len > |mmap| then (TornEntry, position)
      else (Entry(mmap[body..body + len]), body + len)
  }

  ghost predicate Fit(entries: seq<Bytes>) {
    forall e <- entries :: |e| < TWO_32
  }

  lemma FrameHeader(payload: Bytes)
    ensures FromLittleEndian(Frame(payload)[..4]) == |payload| % TWO_32
    ensures Frame(payload)[4..] == payload
  {
    Pow256Constants();
    LittleEndianRoundTrip(|payload| % TWO_32, 4);
    assert Frame(payload)[..4] == LittleEndian(|payload| % TWO_32, 4);
  }

  /** A payload comes back out of its own frame exactly when its length fits the 32-bit prefix. */
  lemma FrameRoundTripIff(payload: Bytes)
    ensures ItemAt(Frame(payload), 0).0 == Entry(payload) <==> |payload| < TWO_32
  {
    FrameHeader(payload);
    var len := |payload| % TWO_32;
    var f := Frame(payload);
    assert f[0..4] == f[..4];
    assert ItemAt(f, 0) == (Entry(f[4..4 + len]), 4 + len);
    assert |f[4..4 + len]| == len;
    if len == |payload| {
      assert f[4..4 + len] == payload;
    }
  }

  lemma EncodeLogSnoc(entries: seq<Bytes>, e: Bytes)
    ensures EncodeLog(entries + [e]) == EncodeLog(entries) + Frame(e)
  {
    assert (entries + [e])[..|entries|] == entries;
  }

  lemma {:induction false} EncodeLogConcat(a: seq<Bytes>, b: seq<Bytes>)
    ensures EncodeLog(a + b) == EncodeLog(a) + EncodeLog(b)
  {
    if b == [] {
      assert a + b == a;
    } else {
      var front, e := b[..|b| - 1], b[|b| - 1];
      EncodeLogConcat(a, front);
      EncodeLogSnoc(a + front, e);
      assert a + b == a + front + [e];
      Associate(EncodeLog(a), EncodeLog(front), Frame(e));
    }
  }

  lemma Associate(x: Bytes, y: Bytes, z: Bytes)
    ensures x + (y + z) == x + y + z
  {
  }

  lemma EncodeLogAround(a: seq<Bytes>, e: Bytes, b: seq<Bytes>)
    ensures EncodeLog(a + [e]) == EncodeLog(a) + Frame(e)
    ensures EncodeLog(a + [e] + b) == EncodeLog(a) + Frame(e) + EncodeLog(b)
  {
    EncodeLogSnoc(a, e);
    EncodeLogConcat(a + [e], b);
  }

  lemma SplitAt(entries: seq<Bytes>, i: nat)
    requires i < |entries|
    ensures entries[..i + 1] == entries[..i] + [entries[i]]
    ensures entries == entries[..i] + [entries[i]] + entries[i + 1..]
  {
  }

  /** The log around entry `i`. */
  lemma EncodeLogStep(entries: seq<Bytes>, i: nat)
    requires i < |entries|
    ensures EncodeLog(entries[..i + 1]) == EncodeLog(entries[..i]) + Frame(entries[i])
    ensures EncodeLog(entries) == EncodeLog(entries[..i]) + Frame(entries[i]) + EncodeLog(entries[i + 1..])
  {
    SplitAt(entries, i);
    EncodeLogAround(entries[..i], entries[i], entries[i + 1..]);
  }

  /** Part `i..j` of the middle one of three byte strings, seen in an initial part of all. */
  lemma SliceOfMiddle(before: Bytes, f: Bytes, after: Bytes, mmap: Bytes, i: nat, j: nat)
    requires mmap <= before + f + after && i <= j <= |f| && |before| + j <= |mmap|
    ensures mmap[|before| + i..|before| + j] == f[i..j]
  {
    var all := before + f + after;
    forall k | i <= k < j ensures mmap[|before| + k] == f[k] {
      assert mmap[|before| + k] == all[|before| + k] == f[k];
    }
  }

  /** Reading at the start of a frame, with an initial part of the bytes mapped. */
  lemma ItemAtFrame(before: Bytes, payload: Bytes, after: Bytes, mmap: Bytes)
    requires |payload| < TWO_32
    requires |before| <= |mmap| && mmap <= before + Frame(payload) + after
    ensures var at, end := |before|, |before| + |Frame(payload)|;
            ItemAt(mmap, at) ==
              if end <= |mmap| then (Entry(payload), end)
              else (if |mmap| == at then End else if at + 4 > |mmap| then TornPrefix else TornEntry, at)
  {
    var at, f := |before|, Frame(payload);
    FrameHeader(payload);
    if at + 4 <= |mmap| {
      SliceOfMiddle(before, f, after, mmap, 0, 4);
      assert mmap[at..at + 4] == f[..4];
      if at + |f| <= |mmap| {
        SliceOfMiddle(before, f, after, mmap, 4, |f|);
        assert mmap[at + 4..at + 4 + |payload|] == payload;
      }
    }
  }

  /**
   At the boundary after entry `i`, a mapping of any initial part of the log yields the next entry if all of its
   frame is mapped; otherwise it yields the end on a frame boundary, and an error inside a frame.
   */
  lemma ItemAtBoundary(entries: seq<Bytes>, mmap: Bytes, i: nat)
    requires Fit(entries) && i <= |entries|
    requires mmap <= EncodeLog(entries) && |EncodeLog(entries[..i])| <= |mmap|
    ensures var at := |EncodeLog(entries[..i])|;
            if i < |entries| && |EncodeLog(entries[..i + 1])| <= |mmap|
            then ItemAt(mmap, at) == (Entry(entries[i]), |EncodeLog(entries[..i + 1])|)
            else ItemAt(mmap, at).1 == at && ItemAt(mmap, at).0 ==
                 if |mmap| == at then End else if at + 4 > |mmap| then TornPrefix else TornEntry
  {
    if i == |entries| {
      assert entries[..i] == entries;
    } else {
      EncodeLogStep(entries, i);
      ItemAtFrame(EncodeLog(entries[..i]), entries[i], EncodeLog(entries[i + 1..]), mmap);
    }
  }

  // --- A log cut short anywhere ---

  /** Everything the iterator yields from `position` on until it stops, how it stops, and where. */
  function ReadAll(mmap: Bytes, position: nat): (seq<Bytes>, Item, nat)
    decreases |mmap| - position
  {
    var (item, next) := ItemAt(mmap, position);
    if item.Entry? then
      var (rest, stop, end) := ReadAll(mmap, next);
      ([item.payload] + rest, stop, end)
    else ([], item, next)
  }

  /** How many whole frames the first `n` bytes of the log hold. */
  function WholeFrames(entries: seq<Bytes>, n: nat): (k: nat)
    ensures k <= |entries| && |EncodeLog(entries[..k])| <= n
    ensures k < |entries| ==> n < |EncodeLog(entries[..k + 1])|
  {
    if |EncodeLog(entries)| <= n then
      assert entries[..|entries|] == entries;
      |entries|
    else
      var front := entries[..|entries| - 1];
      var k := WholeFrames(front, n);
      assert front[..k] == entries[..k];
      assert k < |front| ==> front[..k + 1] == entries[..k + 1];
      assert k == |front| ==> entries[..k + 1] == entries;
      k
  }

  ghost predicate ReadsExactly(entries: seq<Bytes>, n: nat, i: nat, read: (seq<Bytes>, Item, nat)) {
    var k := WholeFrames(entries, n);
    && i <= k && read.0 == entries[i..k]
    && read.2 == |EncodeLog(entries[..k])|
    && !read.1.Entry? && (read.1.End? <==> n == read.2)
  }

  lemma ReadsOneMore(entries: seq<Bytes>, n: nat, i: nat, rest: (seq<Bytes>, Item, nat))
    requires i < |entries| && ReadsExactly(entries, n, i + 1, rest)
    ensures ReadsExactly(entries, n, i, ([entries[i]] + rest.0, rest.1, rest.2))
  {
    var k := WholeFrames(entries, n);
    assert entries[i..k] == [entries[i]] + entries[i + 1..k];
  }

  lemma {:induction false} ReadFromBoundary(entries: seq<Bytes>, n: nat, i: nat)
    requires Fit(entries) && n <= |EncodeLog(entries)| && i <= WholeFrames(entries, n)
    ensures ReadsExactly(entries, n, i, ReadAll(EncodeLog(entries)[..n], |EncodeLog(entries[..i])|))
    decreases |entries| - i
  {
    var k, mmap := WholeFrames(entries, n), EncodeLog(entries)[..n];
    BoundariesGrow(entries, i, k);
    ItemAtBoundary(entries, mmap, i);
    if i < k {
      BoundariesGrow(entries, i + 1, k);
      ReadFromBoundary(entries, n, i + 1);
      ReadsOneMore(entries, n, i, ReadAll(mmap, |EncodeLog(entries[..i + 1])|));
    }
  }

  lemma {:induction false} BoundariesGrow(entries: seq<Bytes>, i: nat, j: nat)
    requires i <= j <= |entries|
    ensures |EncodeLog(entries[..i])| + 4 * (j - i) <= |EncodeLog(entries[..j])|
    decreases j - i
  {
    if i < j {
      BoundariesGrow(entries, i, j - 1);
      EncodeLogStep(entries, j - 1);
    }
  }

  /**
   Cutting the encoded log after any number of bytes and reading what is left yields exactly the entries that lie
   wholly inside the cut; reading then ends normally on a frame boundary and with an error anywhere else, with
   the position left at the last boundary.
   */
  lemma TornLogRoundTrip(entries: seq<Bytes>, n: nat)
    requires Fit(entries) && n <= |EncodeLog(entries)|
    ensures ReadsExactly(entries, n, 0, ReadAll(EncodeLog(entries)[..n], 0))
  {
    assert entries[..0] == [];
    ReadFromBoundary(entries, n, 0);
  }

  /**
   A write that tears a frame after its prefix, followed by another append: the reader completes the torn entry with
   the first bytes of the next frame. It reads the entry right exactly when these happen to be the missing bytes.
   */
  lemma TornAppendIsCompletedByNext(payload: Bytes, k: nat, next: Bytes)
    requires |payload| < TWO_32 && 4 <= k <= |Frame(payload)| && |Frame(payload)| - k <= |Frame(next)|
    ensures var missing := |Frame(payload)| - k;
            && ItemAt(Frame(payload)[..k] + Frame(next), 0) == (Entry(payload[..k - 4] + Frame(next)[..missing]), |Frame(payload)|)
            && (payload[..k - 4] + Frame(next)[..missing] == payload <==> Frame(next)[..missing] == payload[k - 4..])
  {
    var f, missing := Frame(payload), |Frame(payload)| - k;
    var torn := f[..k] + Frame(next);
    FrameHeader(payload);
    assert torn[0..4] == f[..4];
    CompletedEntry(f, k, Frame(next));
    assert f[4..k] == payload[..k - 4];
    CompletedRightIff(payload, k - 4, Frame(next)[..missing]);
  }

  lemma CompletedEntry(f: Bytes, k: nat, next: Bytes)
    requires 4 <= k <= |f| && |f| - k <= |next|
    ensures (f[..k] + next)[4..|f|] == f[4..k] + next[..|f| - k]
  {
  }

  lemma CompletedRightIff(payload: Bytes, i: nat, rest: Bytes)
    requires i <= |payload| && |rest| == |payload| - i
    ensures payload[..i] + rest == payload <==> rest == payload[i..]
  {
    assert payload == payload[..i] + payload[i..];
    assert (payload[..i] + rest)[i..] == rest;
  }

  // --- The objects ---

  /** How writing a frame turns out: some of its bytes reach the file, or all of them but the sync fails, or all is well. */
  datatype AppendOutcome = WriteFails(written: nat) | SyncFails | Logged

  /** What an append adds to the file. An entry that cannot be encoded has no payload. */
  function BytesWritten(payload: Option<Bytes>, outcome: AppendOutcome): Bytes {
    if payload.None? then []
    else
      var frame := Frame(payload.value);
      if outcome.WriteFails? && outcome.written < |frame| then frame[..outcome.written] else frame
  }

  /** The mapping, position and recorded size after a refresh that finds the file at `size`, mapped as `mapped`. */
  function RefreshMap(mmap: Bytes, position: nat, fileSize: nat, size: nat, mapped: Bytes): (Bytes, nat, nat) {
    var (mmap', fileSize') := if size > fileSize then (mapped, size) else (mmap, fileSize);
    (mmap', if position < |mmap'| then position else |mmap'|, fileSize')
  }

  /** The writer's end of the log. */
  class ReplicaLogAppender {
    var file: Bytes
    var fileSize: nat

    constructor ()
      ensures file == EncodeLog([]) && fileSize == |file|
    {
      file, fileSize := [], 0;
    }

    /** Appends one entry: the prefix, then the payload, then the sync. The recorded size grows only if all goes well. */
    method Append(payload: Option<Bytes>, outcome: AppendOutcome) returns (ok: bool)
      modifies this
      ensures ok <==> payload.Some? && outcome.Logged?
      ensures file == old(file) + BytesWritten(payload, outcome)
      ensures fileSize == old(fileSize) + if ok then |BytesWritten(payload, outcome)| else 0
      ensures forall entries :: ok && old(file) == EncodeLog(entries) ==> file == EncodeLog(entries + [payload.value])
    {
      if payload.None? {
        assert file == file + [];
        return false;
      }
      ghost var frame := Frame(payload.value);
      var lenBytes := LittleEndian(|payload.value| % TWO_32, 4);
      if outcome.WriteFails? && outcome.written < 4 {
        assert lenBytes[..outcome.written] == frame[..outcome.written];
        file := file + lenBytes[..outcome.written];
        return false;
      }
      file := file + lenBytes;
      if outcome.WriteFails? && outcome.written < 4 + |payload.value| {
        var written := outcome.written - 4;
        Associate(old(file), lenBytes, payload.value[..written]);
        assert lenBytes + payload.value[..written] == frame[..outcome.written];
        file := file + payload.value[..written];
        return false;
      }
      file := file + payload.value;
      Associate(old(file), lenBytes, payload.value);
      if !outcome.Logged? {
        return false;
      }
      fileSize := fileSize + |lenBytes| + |payload.value|;
      forall entries | old(file) == EncodeLog(entries) ensures file == EncodeLog(entries + [payload.value]) {
        EncodeLogSnoc(entries, payload.value);
      }
      return true;
    }
  }

  /** A reader's mapping of the file; the size was read before the file was mapped. */
  class MmapLogIterator {
    var mmap: Bytes
    var position: nat
    var fileSize: nat

    ghost predicate Valid()
      reads this
    {
      position <= |mmap| && fileSize <= |mmap|
    }

    constructor (fileSize: nat, mapped: Bytes)
      requires fileSize <= |mapped|
      ensures Valid() && mmap == mapped && position == 0 && this.fileSize == fileSize
    {
      this.mmap, this.position, this.fileSize := mapped, 0, fileSize;
    }

    /** Yields the next entry; an entry that is not all there rewinds past its prefix. */
    method Next() returns (item: Item)
      requires Valid()
      modifies this`position
      ensures Valid()
      ensures (item, position) == ItemAt(mmap, old(position))
    {
      if position >= |mmap| {
        return End;
      }
      if position + 4 > |mmap| {
        return TornPrefix;
      }
      var lenBytes := mmap[position..position + 4];
      position := position + 4;
      var len := FromLittleEndian(lenBytes);
      if position + len > |mmap| {
        position := position - 4;
        return TornEntry;
      }
      item := Entry(mmap[position..position + len]);
      position := position + len;
    }

    /** Maps the file again if it has grown since its size was last read. */
    method Refresh(fileSize: nat, mapped: Bytes)
      requires Valid() && fileSize <= |mapped| && mmap <= mapped
      modifies this
      ensures Valid() && position == old(position)
      ensures (mmap, position, this.fileSize) == RefreshMap(old(mmap), old(position), old(this.fileSize), fileSize, mapped)
      ensures fileSize > old(this.fileSize) ==> mmap == mapped && this.fileSize == fileSize
      ensures fileSize <= old(this.fileSize) ==> mmap == old(mmap) && this.fileSize == old(this.fileSize)
    {
      var saved := position;
      if fileSize > this.fileSize {
        mmap := mapped;
        this.fileSize := fileSize;
      }
      position := if saved < |mmap| then saved else |mmap|;
    }
  }
}
