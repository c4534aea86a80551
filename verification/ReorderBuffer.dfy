/**
 The client's reorder buffer for one replica. Votes arrive in any order, any number of times; the buffer
 applies them in sequence-number order.
 */
module ReorderBuffer {
  import opened Types
  import opened VoteFold

  /** One replica's share of the updater's state. */
  datatype Slice = Slice(next: nat, backlog: map<SequenceNumber, Vote>, column: Column)

  const EMPTY_SLICE := Slice(0, map[], EMPTY_COLUMN)

  function ApplyVote(c: Column, v: Vote): Column {
    if v.transaction.None? then c else Apply(c, ContentOf(v))
  }

  /** Applies backlogged votes for as long as the next one is there. */
  function Drain(s: Slice): Slice
    decreases |s.backlog|
  {
    if s.next in s.backlog then
      Drain(Slice(s.next + 1, s.backlog - {s.next}, ApplyVote(s.column, s.backlog[s.next])))
    else s
  }

  function Deliver(s: Slice, v: Vote): Slice {
    if v.sequenceNumber < s.next then s
    else if v.sequenceNumber > s.next then s.(backlog := s.backlog[v.sequenceNumber := v])
    else Drain(Slice(s.next + 1, s.backlog, ApplyVote(s.column, v)))
  }

  function DeliverAll(vs: seq<Vote>): Slice {
    if vs == [] then EMPTY_SLICE else Deliver(DeliverAll(vs[..|vs| - 1]), vs[|vs| - 1])
  }

  ghost function Received(vs: seq<Vote>): set<SequenceNumber> {
    set v | v in vs :: v.sequenceNumber
  }

  /** Every vote carries what the stream says its sequence number carries: no equivocation. */
  ghost predicate FollowsStream(vs: seq<Vote>, s: Stream) {
    forall v <- vs :: v.transaction.Some? && ContentOf(v) == s(v.sequenceNumber)
  }

  /** Everything below `next` was received, and the backlog keeps what was received from `next` on. */
  ghost predicate Buffers(s: Slice, vs: seq<Vote>) {
    && (forall i: nat :: i < s.next ==> i in Received(vs))
    && (forall k: SequenceNumber :: k in s.backlog <==> k in Received(vs) && k >= s.next)
    && (forall k: SequenceNumber :: k in s.backlog ==> s.backlog[k] in vs && s.backlog[k].sequenceNumber == k)
  }

  lemma {:induction false} DrainBuffers(s: Slice, vs: seq<Vote>)
    requires Buffers(s, vs)
    ensures Buffers(Drain(s), vs) && Drain(s).next !in Received(vs)
    decreases |s.backlog|
  {
    if s.next in s.backlog {
      DrainBuffers(Slice(s.next + 1, s.backlog - {s.next}, ApplyVote(s.column, s.backlog[s.next])), vs);
    }
  }

  lemma DeliverBuffers(s: Slice, vs: seq<Vote>, v: Vote)
    requires Buffers(s, vs) && s.next !in Received(vs)
    ensures Buffers(Deliver(s, v), vs + [v]) && Deliver(s, v).next !in Received(vs + [v])
  {
    ReceivedSnoc(vs, v);
    var all := vs + [v];
    assert v in all && forall u :: u in vs ==> u in all;
    if v.sequenceNumber == s.next {
      var s' := Slice(s.next + 1, s.backlog, ApplyVote(s.column, v));
      assert Buffers(s', all);
      DrainBuffers(s', all);
    }
  }

  /**
   After any arrivals, `next` is the least sequence number not yet received and the backlog holds exactly the
   received ones from there on. This holds even when the replica equivocates.
   */
  lemma {:induction false} BufferHoldsTheGap(vs: seq<Vote>)
    ensures Buffers(DeliverAll(vs), vs) && DeliverAll(vs).next !in Received(vs)
  {
    if vs == [] {
    } else {
      var before, v := vs[..|vs| - 1], vs[|vs| - 1];
      BufferHoldsTheGap(before);
      DeliverBuffers(DeliverAll(before), before, v);
      assert before + [v] == vs;
    }
  }

  /** `v` is the last vote received under number `k`. */
  ghost predicate LastUnder(vs: seq<Vote>, k: SequenceNumber, v: Vote) {
    exists i :: 0 <= i < |vs| && LastAt(vs, k, i) && vs[i] == v
  }

  ghost predicate LastAt(vs: seq<Vote>, k: SequenceNumber, i: nat) {
    i < |vs| && vs[i].sequenceNumber == k && forall j :: i < j < |vs| ==> vs[j].sequenceNumber != k
  }

  lemma LastSnoc(vs: seq<Vote>, v: Vote)
    ensures LastUnder(vs + [v], v.sequenceNumber, v)
    ensures forall k: SequenceNumber, u :: k != v.sequenceNumber && LastUnder(vs, k, u) ==> LastUnder(vs + [v], k, u)
  {
    var all := vs + [v];
    assert LastAt(all, v.sequenceNumber, |vs|) && all[|vs|] == v;
    forall k: SequenceNumber, u | k != v.sequenceNumber && LastUnder(vs, k, u) ensures LastUnder(all, k, u) {
      var i :| 0 <= i < |vs| && LastAt(vs, k, i) && vs[i] == u;
      assert LastAt(all, k, i) && all[i] == u;
    }
  }

  ghost predicate HoldsLast(backlog: map<SequenceNumber, Vote>, vs: seq<Vote>) {
    forall k: SequenceNumber :: k in backlog ==> LastUnder(vs, k, backlog[k])
  }

  lemma {:induction false} DrainOnlyRemoves(s: Slice)
    ensures forall k: SequenceNumber :: k in Drain(s).backlog ==> k in s.backlog && Drain(s).backlog[k] == s.backlog[k]
    decreases |s.backlog|
  {
    if s.next in s.backlog {
      DrainOnlyRemoves(Slice(s.next + 1, s.backlog - {s.next}, ApplyVote(s.column, s.backlog[s.next])));
    }
  }

  /** When votes differ under one number, the backlog keeps the one received last. */
  lemma {:induction false} BacklogHoldsLast(vs: seq<Vote>)
    ensures HoldsLast(DeliverAll(vs).backlog, vs)
  {
    if vs == [] {
    } else {
      var before, v := vs[..|vs| - 1], vs[|vs| - 1];
      var s := DeliverAll(before);
      BacklogHoldsLast(before);
      BufferHoldsTheGap(before);
      LastSnoc(before, v);
      assert before + [v] == vs;
      if v.sequenceNumber == s.next {
        DrainOnlyRemoves(Slice(s.next + 1, s.backlog, ApplyVote(s.column, v)));
      }
    }
  }

  lemma ReceivedSnoc(vs: seq<Vote>, v: Vote)
    ensures Received(vs + [v]) == Received(vs) + {v.sequenceNumber}
  {
    assert v in vs + [v];
    forall k: SequenceNumber | k in Received(vs) ensures k in Received(vs + [v]) {
      var u :| u in vs && u.sequenceNumber == k;
      assert u in vs + [v];
    }
  }

  lemma {:induction false} DrainFolds(s: Slice, str: Stream)
    requires s.column == Fold(str, s.next)
    requires forall k: SequenceNumber :: k in s.backlog ==>
               s.backlog[k].transaction.Some? && ContentOf(s.backlog[k]) == str(k)
    ensures Drain(s).column == Fold(str, Drain(s).next)
    decreases |s.backlog|
  {
    if s.next in s.backlog {
      DrainFolds(Slice(s.next + 1, s.backlog - {s.next}, ApplyVote(s.column, s.backlog[s.next])), str);
    }
  }

  lemma DeliverFolds(s: Slice, v: Vote, str: Stream)
    requires s.column == Fold(str, s.next)
    requires forall k: SequenceNumber :: k in s.backlog ==>
               s.backlog[k].transaction.Some? && ContentOf(s.backlog[k]) == str(k)
    requires v.transaction.Some? && ContentOf(v) == str(v.sequenceNumber)
    ensures Deliver(s, v).column == Fold(str, Deliver(s, v).next)
  {
    if v.sequenceNumber == s.next {
      DrainFolds(Slice(s.next + 1, s.backlog, ApplyVote(s.column, v)), str);
    }
  }

  /** The reorder buffer refines the in-order machine: its column is the fold over the votes below `next`. */
  lemma {:induction false} BufferRefinesFold(vs: seq<Vote>, str: Stream)
    requires FollowsStream(vs, str)
    ensures DeliverAll(vs).column == Fold(str, DeliverAll(vs).next)
  {
    if vs == [] {
    } else {
      var before, v := vs[..|vs| - 1], vs[|vs| - 1];
      BufferRefinesFold(before, str);
      BufferHoldsTheGap(before);
      DeliverFolds(DeliverAll(before), v, str);
    }
  }

  /** `next` is the least sequence number not received, and the backlog holds exactly the received ones above it. */
  ghost predicate Gap(s: Slice, vs: seq<Vote>) {
    && (forall i: nat :: i < s.next ==> i in Received(vs))
    && s.next !in Received(vs)
    && (forall k: SequenceNumber :: k in s.backlog <==> k in Received(vs) && k > s.next)
  }

  lemma BuffersLeaveGap(s: Slice, vs: seq<Vote>)
    requires Buffers(s, vs) && s.next !in Received(vs)
    ensures Gap(s, vs)
  {
  }

  /**
   What in-order delivery means after receiving `vs`: the gap is where it should be, the backlog holds the stream's
   votes, and the column is votes 0 .. next-1 applied in order.
   */
  ghost predicate InOrder(s: Slice, vs: seq<Vote>, str: Stream) {
    && Gap(s, vs)
    && (forall k: SequenceNumber :: k in s.backlog ==> s.backlog[k].transaction.Some? && ContentOf(s.backlog[k]) == str(k))
    && s.column == Fold(str, s.next)
  }

  lemma BufferDeliversInOrder(vs: seq<Vote>, str: Stream)
    requires FollowsStream(vs, str)
    ensures InOrder(DeliverAll(vs), vs, str)
  {
    BufferHoldsTheGap(vs);
    BuffersLeaveGap(DeliverAll(vs), vs);
    BufferRefinesFold(vs, str);
    HeldVotesFollow(DeliverAll(vs), vs, str);
  }

  lemma HeldVotesFollow(s: Slice, vs: seq<Vote>, str: Stream)
    requires Buffers(s, vs) && FollowsStream(vs, str)
    ensures forall k: SequenceNumber :: k in s.backlog ==> s.backlog[k].transaction.Some? && ContentOf(s.backlog[k]) == str(k)
  {
  }

  /** Two clients that received the same sequence numbers end with the same buffer, up to signature bytes. */
  lemma InOrderIsDetermined(s: Slice, vs: seq<Vote>, t: Slice, ws: seq<Vote>, str: Stream)
    requires InOrder(s, vs, str) && InOrder(t, ws, str) && Received(vs) == Received(ws)
    ensures s.next == t.next && s.backlog.Keys == t.backlog.Keys && s.column == t.column
  {
    assert s.next < t.next ==> s.next in Received(ws);
    assert t.next < s.next ==> t.next in Received(vs);
  }
}
