/** The padded order statistics behind a read: where their indices land, and what survives faulty replicas. */
module ReadBounds {
  import opened Types
  import opened OrderStatistics

  /** What the client insists on before it starts: alpha against beta, and enough replicas for both. */
  predicate Params(alpha: nat, beta: nat, replicas: nat) {
    alpha >= 4 * beta + 1 && replicas >= alpha + beta
  }

  function Padding(n: nat, v: Timestamp): (s: seq<Timestamp>)
    ensures |s| == n && forall i :: 0 <= i < n ==> s[i] == v
  {
    seq(n, _ => v)
  }

  /** Up to the first `n` elements. */
  function Take(s: seq<Timestamp>, n: nat): seq<Timestamp> {
    if n <= |s| then s[..n] else s
  }

  /** The element at index len/2, or 0 when there is none. */
  function Middle(s: seq<Timestamp>): Timestamp {
    if s == [] then 0 else s[|s| / 2]
  }

  function MinOf(sorted: seq<Timestamp>, alpha: nat, beta: nat): Timestamp {
    Middle(Take(Padding(beta, 0) + sorted, alpha))
  }

  /** Splitting off the last alpha elements panics when there are fewer than alpha. */
  function MaxOf(sorted: seq<Timestamp>, alpha: nat, beta: nat): Option<Timestamp> {
    var padded := sorted + Padding(beta, U64_MAX);
    if |padded| < alpha then None else Some(Middle(padded[|padded| - alpha..]))
  }

  /** Where the lower bound lands when alpha elements are there to look at. */
  lemma MinIndex(l: seq<Timestamp>, alpha: nat, beta: nat)
    requires alpha >= 4 * beta + 1 && |l| + beta >= alpha
    ensures 0 <= alpha / 2 - beta < |l|
    ensures MinOf(l, alpha, beta) == l[alpha / 2 - beta]
  {
    var padded := Padding(beta, 0) + l;
    assert Take(padded, alpha)[alpha / 2] == padded[alpha / 2];
  }

  /** Where it lands when there are fewer: the padding then weighs more. */
  lemma MinIndexShort(l: seq<Timestamp>, alpha: nat, beta: nat)
    requires alpha >= 4 * beta + 1 && |l| + beta < alpha
    ensures MinOf(l, alpha, beta) == if l == [] || |l| < beta then 0 else l[(|l| - beta) / 2]
  {
    var padded := Padding(beta, 0) + l;
    assert Take(padded, alpha) == padded;
  }

  /** Where the upper bound lands; it panics exactly when fewer than alpha - beta timestamps are held. */
  lemma MaxIndex(l: seq<Timestamp>, alpha: nat, beta: nat)
    requires alpha >= 4 * beta + 1
    ensures MaxOf(l, alpha, beta).None? <==> |l| + beta < alpha
    ensures |l| + beta >= alpha ==>
              && 0 <= |l| + beta - (alpha + 1) / 2 < |l|
              && MaxOf(l, alpha, beta) == Some(l[|l| + beta - (alpha + 1) / 2])
  {
    var padded := l + Padding(beta, U64_MAX);
    if |padded| >= alpha {
      var tail := padded[|padded| - alpha..];
      assert tail[alpha / 2] == padded[|padded| - alpha + alpha / 2];
    }
  }

  /** With enough timestamps the two ranks lie inside the list, on either side of its middle. */
  lemma RanksEncloseMiddle(k: nat, alpha: nat, beta: nat)
    requires alpha >= 4 * beta + 1 && k + beta >= alpha
    ensures 0 <= alpha / 2 - beta <= k / 2 <= k + beta - (alpha + 1) / 2 < k
  {
    assert 2 * (alpha / 2) <= alpha && alpha <= 2 * ((alpha + 1) / 2);
  }

  lemma MinAtMostMedian(l: seq<Timestamp>, alpha: nat, beta: nat)
    requires alpha >= 4 * beta + 1 && |l| + beta >= alpha && IsSorted(l)
    ensures MinOf(l, alpha, beta) <= Middle(l)
  {
    var low := alpha / 2 - beta;
    RanksEncloseMiddle(|l|, alpha, beta);
    MinIndex(l, alpha, beta);
    SortedAt(l, low, |l| / 2);
  }

  lemma MedianAtMostMax(l: seq<Timestamp>, alpha: nat, beta: nat)
    requires alpha >= 4 * beta + 1 && |l| + beta >= alpha && IsSorted(l)
    ensures MaxOf(l, alpha, beta).Some? && Middle(l) <= MaxOf(l, alpha, beta).value
  {
    var high := |l| + beta - (alpha + 1) / 2;
    RanksEncloseMiddle(|l|, alpha, beta);
    MaxIndex(l, alpha, beta);
    SortedAt(l, |l| / 2, high);
  }

  /** Whenever a read answers at all, its bounds enclose the median of the timestamps it holds. */
  lemma BoundsEncloseMedian(l: seq<Timestamp>, alpha: nat, beta: nat)
    requires alpha >= 4 * beta + 1 && |l| + beta >= alpha && IsSorted(l)
    ensures MaxOf(l, alpha, beta).Some?
    ensures MinOf(l, alpha, beta) <= Middle(l) <= MaxOf(l, alpha, beta).value
  {
    MinAtMostMedian(l, alpha, beta);
    MedianAtMostMax(l, alpha, beta);
  }

  lemma SortedAt(l: seq<Timestamp>, i: nat, j: nat)
    requires IsSorted(l) && i <= j < |l|
    ensures l[i] <= l[j]
  {
  }

  /** What the bounds mean in terms of counting, for a row with a timestamp from everyone needed. */
  lemma MinByCounting(m: Row, alpha: nat, beta: nat, x: nat)
    requires alpha >= 4 * beta + 1 && |m| + beta >= alpha
    ensures x <= MinOf(SortedValues(m), alpha, beta) <==> |Below(m, x)| <= alpha / 2 - beta
  {
    var l, j := SortedValues(m), alpha / 2 - beta;
    MinIndex(l, alpha, beta);
    RankByCounting(l, j, x);
    assert x <= l[j] <==> |Below(m, x)| <= j;
  }

  lemma MaxByCounting(m: Row, alpha: nat, beta: nat, x: nat)
    requires alpha >= 4 * beta + 1 && |m| + beta >= alpha
    ensures MaxOf(SortedValues(m), alpha, beta).Some?
    ensures x >= MaxOf(SortedValues(m), alpha, beta).value <==> |Above(m, x)| <= (alpha + 1) / 2 - 1 - beta
  {
    var l, j := SortedValues(m), |m| + beta - (alpha + 1) / 2;
    MaxIndex(l, alpha, beta);
    AtMostByCounting(m, j, x);
    assert x >= l[j] <==> |Above(m, x)| <= |m| - 1 - j;
  }

  /** Sorting after padding with zeros is padding after sorting, so both ways of computing the bound agree. */
  lemma PaddingCommutesWithSorting(s: seq<Timestamp>, beta: nat)
    ensures Sort(Padding(beta, 0) + s) == Padding(beta, 0) + Sort(s)
  {
    var zeros := Padding(beta, 0);
    SortSorts(zeros + s);
    SortSorts(s);
    assert IsSorted(zeros + Sort(s));
    forall x: nat ensures CountBelow(Sort(zeros + s), x) == CountBelow(zeros + Sort(s), x) {
      CountBelowConcat(zeros, s, x);
      CountBelowConcat(zeros, Sort(s), x);
    }
    SortedIsUnique(Sort(zeros + s), zeros + Sort(s));
  }

  /** The replicas on which two rows differ. */
  ghost function Differing(sample: Row, row: Row): set<ReplicaId> {
    set r: ReplicaId | r in sample && !(r in row && row[r] == sample[r])
  }

  lemma AtMostRankBelow(m: Row, j: nat)
    requires j < |m|
    ensures |Below(m, SortedValues(m)[j])| <= j
    ensures |Above(m, SortedValues(m)[j])| <= |m| - 1 - j
  {
    AtLeastByCounting(m, j, SortedValues(m)[j]);
    AtMostByCounting(m, j, SortedValues(m)[j]);
  }

  /**
   Take at least alpha of the timestamps held for a transaction and replace up to beta of them by anything: the
   median of what results still lies between the bounds computed from the original row.
   */
  lemma BoundsSurviveFaults(row: Row, sample: Row, alpha: nat, beta: nat)
    requires alpha >= 4 * beta + 1
    requires sample.Keys <= row.Keys && |sample| >= alpha
    requires |Differing(sample, row)| <= beta
    ensures MaxOf(SortedValues(row), alpha, beta).Some?
    ensures MinOf(SortedValues(row), alpha, beta) <= Middle(SortedValues(sample)) <= MaxOf(SortedValues(row), alpha, beta).value
  {
    SubsetSize(sample.Keys, row.Keys);
    assert |sample.Keys| == |sample| && |row.Keys| == |row|;
    LowerBoundSurvivesFaults(row, sample, alpha, beta);
    UpperBoundSurvivesFaults(row, sample, alpha, beta);
  }

  lemma LowerBoundSurvivesFaults(row: Row, sample: Row, alpha: nat, beta: nat)
    requires alpha >= 4 * beta + 1 && |row| >= |sample| >= alpha
    requires |Differing(sample, row)| <= beta
    ensures MinOf(SortedValues(row), alpha, beta) <= Middle(SortedValues(sample))
  {
    var j := alpha / 2 - beta;
    MinIndex(SortedValues(row), alpha, beta);
    AtMostRankBelow(row, j);
    HalvesGrow(alpha, |sample|);
    MiddleStaysAbove(row, sample, SortedValues(row)[j]);
  }

  lemma MiddleStaysAbove(row: Row, sample: Row, low: Timestamp)
    requires sample != map[] && |Below(row, low)| + |Differing(sample, row)| <= |sample| / 2
    ensures Middle(SortedValues(sample)) >= low
  {
    assert Below(sample, low) <= Below(row, low) + Differing(sample, row);
    MiddleAtLeast(sample, low, Below(row, low), Differing(sample, row));
  }

  lemma UpperBoundSurvivesFaults(row: Row, sample: Row, alpha: nat, beta: nat)
    requires alpha >= 4 * beta + 1 && |row| >= |sample| >= alpha
    requires |Differing(sample, row)| <= beta
    ensures MaxOf(SortedValues(row), alpha, beta).Some?
    ensures Middle(SortedValues(sample)) <= MaxOf(SortedValues(row), alpha, beta).value
  {
    var j := |row| + beta - (alpha + 1) / 2;
    MaxIndex(SortedValues(row), alpha, beta);
    AtMostRankBelow(row, j);
    UpperHalfLeavesRoom(row, sample, alpha, beta, j);
    MiddleStaysBelow(row, sample, SortedValues(row)[j]);
  }

  lemma UpperHalfLeavesRoom(row: Row, sample: Row, alpha: nat, beta: nat, j: nat)
    requires |sample| >= alpha && j == |row| + beta - (alpha + 1) / 2
    ensures |row| - 1 - j + beta <= |sample| - 1 - |sample| / 2
  {
    HalvesGrow(alpha, |sample|);
  }

  lemma MiddleStaysBelow(row: Row, sample: Row, high: Timestamp)
    requires sample != map[] && |Above(row, high)| + |Differing(sample, row)| <= |sample| - 1 - |sample| / 2
    ensures Middle(SortedValues(sample)) <= high
  {
    assert Above(sample, high) <= Above(row, high) + Differing(sample, row);
    MiddleAtMost(sample, high, Above(row, high), Differing(sample, row));
  }

  lemma HalvesGrow(alpha: nat, m: nat)
    requires alpha <= m
    ensures alpha / 2 <= m / 2
    ensures (alpha + 1) / 2 - 1 <= m - 1 - m / 2
  {
  }

  /**
   The confirmation timestamp a read reports is taken at index len/2 of the row in iteration order, unsorted. It
   is the median under every iteration order exactly when all held timestamps are equal.
   */
  lemma ReportedConfirmationIsMedianIff(row: Row)
    requires row != map[]
    ensures (forall order :: Enumerates(order, row.Keys) ==> Middle(ValuesIn(order, row)) == Middle(SortedValues(row)))
       <==> (forall q: ReplicaId, r: ReplicaId :: q in row && r in row ==> row[q] == row[r])
  {
    var median := Middle(SortedValues(row));
    if forall order :: Enumerates(order, row.Keys) ==> Middle(ValuesIn(order, row)) == median {
      forall q: ReplicaId | q in row ensures row[q] == median {
        var order := OrderWithMiddle(row.Keys, q);
        assert Middle(ValuesIn(order, row)) == row[q];
      }
    }
    if forall q: ReplicaId, r: ReplicaId :: q in row && r in row ==> row[q] == row[r] {
      forall order | Enumerates(order, row.Keys) ensures Middle(ValuesIn(order, row)) == median {
        ConstantRow(row, order);
      }
    }
  }

  lemma ConstantRow(row: Row, order: seq<ReplicaId>)
    requires row != map[] && Enumerates(order, row.Keys)
    requires forall q: ReplicaId, r: ReplicaId :: q in row && r in row ==> row[q] == row[r]
    ensures Middle(ValuesIn(order, row)) == Middle(SortedValues(row))
  {
    ValuesCount(order, row, 0);
    var r := order[|order| / 2];
    ConstantMiddle(row, r);
    assert ValuesIn(order, row)[|order| / 2] == row[r];
  }

  lemma ConstantMiddle(row: Row, r: ReplicaId)
    requires r in row && forall q: ReplicaId :: q in row ==> row[q] == row[r]
    ensures Middle(SortedValues(row)) == row[r]
  {
    var v, j := row[r], |row| / 2;
    NothingBesides(row, v);
    AtLeastByCounting(row, j, v);
    AtMostByCounting(row, j, v);
  }

  lemma NothingBesides(row: Row, v: Timestamp)
    requires forall q: ReplicaId :: q in row ==> row[q] == v
    ensures |Below(row, v)| == 0 && |Above(row, v)| == 0
  {
    assert Below(row, v) == {} && Above(row, v) == {};
  }

  /** Any element can come out at the middle of some iteration order. */
  lemma OrderWithMiddle(keys: set<ReplicaId>, q: ReplicaId) returns (order: seq<ReplicaId>)
    requires q in keys
    ensures Enumerates(order, keys) && order != [] && order[|order| / 2] == q
  {
    var rest := EnumerationExists(keys - {q});
    var half := (|rest| + 1) / 2;
    order := rest[..half] + [q] + rest[half..];
    assert rest == rest[..half] + rest[half..];
    forall r: ReplicaId ensures r in order <==> r in keys {
      assert r in rest <==> r in rest[..half] || r in rest[half..];
    }
  }
}
