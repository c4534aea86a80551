/**
 What one replica's votes mean to a client: its votes 0, 1, 2, ... applied in that order.
 This is the simple machine that the reorder buffer has to refine.
 */
module VoteFold {
  import opened Types

  /** A replica's share of the view: its most recent timestamp, and the timestamp it holds for each transaction. */
  datatype Column = Column(mrt: Timestamp, first: map<Transaction, Timestamp>)

  const EMPTY_COLUMN := Column(0, map[])

  /** What replica votes carry, by sequence number. */
  type Stream = nat -> Content

  /** One vote applied: an old timestamp is dropped, and a timestamp already held for a transaction stays. */
  function Apply(c: Column, v: Content): Column {
    if v.ts < c.mrt then c
    else if IsHeartbeat(v.tx) || (v.tx in c.first && c.first[v.tx] != v.ts) then c.(mrt := v.ts)
    else Column(v.ts, c.first[v.tx := v.ts])
  }

  function Fold(s: Stream, n: nat): Column {
    if n == 0 then EMPTY_COLUMN else Apply(Fold(s, n - 1), s(n - 1))
  }

  /** Vote `i` is a non-heartbeat vote for `tx` that no earlier vote of the replica outdates. */
  ghost predicate Timely(s: Stream, i: nat, tx: Transaction) {
    && s(i).tx == tx
    && tx.data != HEARTBEAT
    && forall j: nat :: j < i ==> s(j).ts <= s(i).ts
  }

  /** The most recent timestamp is the maximum of 0 and every timestamp applied, including those dropped as old. */
  lemma {:induction false} MrtIsMaximum(s: Stream, n: nat)
    ensures forall i: nat :: i < n ==> s(i).ts <= Fold(s, n).mrt
    ensures Fold(s, n).mrt == 0 || exists i: nat :: i < n && s(i).ts == Fold(s, n).mrt
  {
    if n == 0 {
    } else {
      MrtIsMaximum(s, n - 1);
      if Fold(s, n).mrt != Fold(s, n - 1).mrt {
        assert s(n - 1).ts == Fold(s, n).mrt;
      }
    }
  }

  /** A transaction is held exactly when a timely vote for it was applied. */
  lemma {:induction false} HeldIffTimely(s: Stream, n: nat, tx: Transaction)
    ensures tx in Fold(s, n).first <==> exists i: nat :: i < n && Timely(s, i, tx)
  {
    if n == 0 {
    } else {
      HeldIffTimely(s, n - 1, tx);
      MrtIsMaximum(s, n - 1);
      if tx in Fold(s, n).first && tx !in Fold(s, n - 1).first {
        assert Timely(s, n - 1, tx);
      }
      if i: nat :| i < n && Timely(s, i, tx) {
        if i == n - 1 {
          assert s(n - 1).ts >= Fold(s, n - 1).mrt;
        }
      }
    }
  }

  /** The timestamp held is the one of the first timely vote, however many timely votes follow it. */
  lemma {:induction false} HeldIsFirstTimely(s: Stream, n: nat, tx: Transaction, i: nat)
    requires i < n && Timely(s, i, tx) && forall j: nat :: j < i ==> !Timely(s, j, tx)
    ensures tx in Fold(s, n).first && Fold(s, n).first[tx] == s(i).ts
  {
    MrtIsMaximum(s, n - 1);
    if i == n - 1 {
      HeldIffTimely(s, n - 1, tx);
      assert tx !in Fold(s, n - 1).first;
    } else {
      HeldIsFirstTimely(s, n - 1, tx, i);
    }
  }

  lemma {:induction false} HeldAtMostMrt(s: Stream, n: nat)
    ensures forall tx :: tx in Fold(s, n).first ==> Fold(s, n).first[tx] <= Fold(s, n).mrt
  {
    if n > 0 {
      HeldAtMostMrt(s, n - 1);
    }
  }

  /**
   Applying more votes never lowers the most recent timestamp, never changes a held timestamp, and only
   adds timestamps at or above the most recent timestamp from before.
   */
  lemma {:induction false} FoldGrows(s: Stream, m: nat, n: nat)
    requires m <= n
    ensures Fold(s, m).mrt <= Fold(s, n).mrt
    ensures forall tx :: tx in Fold(s, m).first ==> tx in Fold(s, n).first && Fold(s, n).first[tx] == Fold(s, m).first[tx]
    ensures forall tx :: tx in Fold(s, n).first && tx !in Fold(s, m).first ==> Fold(s, n).first[tx] >= Fold(s, m).mrt
    decreases n - m
  {
    if m < n {
      FoldGrows(s, m, n - 1);
    }
  }

  lemma {:induction false} FoldDependsOnPrefix(s: Stream, t: Stream, n: nat)
    requires forall i: nat :: i < n ==> s(i) == t(i)
    ensures Fold(s, n) == Fold(t, n)
  {
    if n > 0 {
      FoldDependsOnPrefix(s, t, n - 1);
    }
  }
}
