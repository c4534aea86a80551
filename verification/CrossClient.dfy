/** What one client's read promises about every other client, with at most beta faulty replicas. */
module CrossClient {
  import opened Types
  import opened VoteFold
  import opened OrderStatistics
  import opened ReadBounds
  import opened ClientView
  import opened ViewProperties
  import opened ClientApi
  import opened Evidence
  import opened SmallRuns

  /**
   Two views that follow the same stream of a replica agree on it: equal timestamps where both hold one, and a
   timestamp only one of them holds is at least the other's most recent timestamp for the replica.
   */
  lemma ViewsAgree(va: View, vb: View, r: ReplicaId, str: Stream, tx: Transaction)
    requires Follows(va, r, str) && Follows(vb, r, str)
    ensures r in RowOf(va, tx) ==>
              if r in RowOf(vb, tx) then RowOf(va, tx)[r] == RowOf(vb, tx)[r] else RowOf(va, tx)[r] >= vb.mrt[r]
  {
    var m: nat :| ColumnOf(va, r) == Fold(str, m);
    var n: nat :| ColumnOf(vb, r) == Fold(str, n);
    HeldIffInRow(va, r, tx);
    HeldIffInRow(vb, r, tx);
    if m <= n {
      FoldGrows(str, m, n);
    } else {
      FoldGrows(str, n, m);
    }
  }

  lemma RunFollows(env: Env, arrivals: seq<Vote>, r: ReplicaId, str: Stream)
    requires r in env.replicas && Honest(env, arrivals, r, str)
    ensures Follows(Run(env, arrivals).view, r, str)
  {
    UpdaterRefinesInOrderApplication(env, arrivals, r, str);
  }

  /** Any two clients agree on an honest replica. */
  lemma ClientsAgreeOnHonestReplica(env: Env, a: seq<Vote>, b: seq<Vote>, r: ReplicaId, str: Stream, tx: Transaction)
    requires r in env.replicas && Honest(env, a, r, str) && Honest(env, b, r, str)
    ensures var va, vb := Run(env, a).view, Run(env, b).view;
            r in RowOf(va, tx) ==>
              if r in RowOf(vb, tx) then RowOf(va, tx)[r] == RowOf(vb, tx)[r] else RowOf(va, tx)[r] >= vb.mrt[r]
  {
    RunFollows(env, a, r, str);
    RunFollows(env, b, r, str);
    ViewsAgree(Run(env, a).view, Run(env, b).view, r, str, tx);
  }

  /**
   Given what one client sees, `other` is a row of at least alpha timestamps that another client could hold for
   `tx` if only the replicas in `faulty` misbehave.
   */
  ghost predicate CouldHold(view: View, tx: Transaction, faulty: set<ReplicaId>, other: Row, alpha: nat, beta: nat) {
    && other.Keys <= view.mrt.Keys && |other| >= alpha && |faulty| <= beta
    && forall r: ReplicaId :: r in other && r !in faulty ==> Plausible(view, tx, r, other[r])
  }

  predicate Plausible(view: View, tx: Transaction, r: ReplicaId, ts: Timestamp) {
    if r in RowOf(view, tx) then ts == RowOf(view, tx)[r] else r in view.mrt && ts >= view.mrt[r]
  }

  /** Two clients of one network, with the same configuration and the same honest replicas. */
  ghost predicate OneNetwork(env: Env, a: seq<Vote>, b: seq<Vote>, faulty: set<ReplicaId>, streams: Streams) {
    forall r: ReplicaId :: r in env.replicas && r !in faulty ==>
      Honest(env, a, r, streams(r)) && Honest(env, b, r, streams(r))
  }

  /** The columns of all replicas but `faulty` follow the streams. */
  ghost predicate FollowsAll(env: Env, view: View, faulty: set<ReplicaId>, streams: Streams) {
    forall r: ReplicaId :: r in env.replicas && r !in faulty ==> Follows(view, r, streams(r))
  }

  lemma RunFollowsAll(env: Env, arrivals: seq<Vote>, faulty: set<ReplicaId>, streams: Streams)
    requires forall r: ReplicaId :: r in env.replicas && r !in faulty ==> Honest(env, arrivals, r, streams(r))
    ensures FollowsAll(env, Run(env, arrivals).view, faulty, streams)
  {
    forall r: ReplicaId | r in env.replicas && r !in faulty ensures Follows(Run(env, arrivals).view, r, streams(r)) {
      RunFollows(env, arrivals, r, streams(r));
    }
  }

  lemma ViewsCouldHold(env: Env, view: View, vb: View, faulty: set<ReplicaId>, streams: Streams, tx: Transaction, alpha: nat, beta: nat)
    requires FollowsAll(env, view, faulty, streams) && FollowsAll(env, vb, faulty, streams) && |faulty| <= beta
    requires view.mrt.Keys == env.replicas.Keys && RowOf(vb, tx).Keys <= env.replicas.Keys && |RowOf(vb, tx)| >= alpha
    ensures CouldHold(view, tx, faulty, RowOf(vb, tx), alpha, beta)
  {
    var row := RowOf(vb, tx);
    forall r: ReplicaId | r in row && r !in faulty ensures Plausible(view, tx, r, row[r]) {
      ViewsAgree(vb, view, r, streams(r), tx);
    }
  }

  /** Every row of alpha timestamps that some client ever holds is one that every other client has to expect. */
  lemma RunsCouldHold(env: Env, a: seq<Vote>, b: seq<Vote>, faulty: set<ReplicaId>, streams: Streams, tx: Transaction, alpha: nat, beta: nat)
    requires OneNetwork(env, a, b, faulty, streams) && |faulty| <= beta
    requires |RowOf(Run(env, b).view, tx)| >= alpha
    ensures CouldHold(Run(env, a).view, tx, faulty, RowOf(Run(env, b).view, tx), alpha, beta)
  {
    RunFollowsAll(env, a, faulty, streams);
    RunFollowsAll(env, b, faulty, streams);
    RunKeepsInv(env, b);
    ViewsCouldHold(env, Run(env, a).view, Run(env, b).view, faulty, streams, tx, alpha, beta);
  }

  // --- The exact strength of a read ---

  /** The earliest timestamp each replica can still turn out to have given `tx`. */
  function Lowest(view: View, tx: Transaction): Row {
    map r: ReplicaId | r in view.mrt :: if r in RowOf(view, tx) then RowOf(view, tx)[r] else view.mrt[r]
  }

  /** The latest such timestamp. */
  function Highest(view: View, tx: Transaction): Row {
    map r: ReplicaId | r in view.mrt :: if r in RowOf(view, tx) then RowOf(view, tx)[r] else U64_MAX
  }

  ghost function BestLowerBound(view: View, tx: Transaction, alpha: nat, beta: nat): Timestamp {
    MinOf(SortedValues(Lowest(view, tx)), alpha, beta)
  }

  ghost function BestUpperBound(view: View, tx: Transaction, alpha: nat, beta: nat): Option<Timestamp> {
    MaxOf(SortedValues(Highest(view, tx)), alpha, beta)
  }

  ghost predicate BoundsFromBelow(view: View, tx: Transaction, alpha: nat, beta: nat, x: nat) {
    forall faulty, other :: CouldHold(view, tx, faulty, other, alpha, beta) ==> Middle(SortedValues(other)) >= x
  }

  ghost predicate BoundsFromAbove(view: View, tx: Transaction, alpha: nat, beta: nat, x: nat) {
    forall faulty, other :: CouldHold(view, tx, faulty, other, alpha, beta) ==> Middle(SortedValues(other)) <= x
  }

  ghost predicate Configured(view: View, alpha: nat, beta: nat) {
    Params(alpha, beta, |view.mrt|) && forall tx :: tx in view.tsps ==> view.tsps[tx].Keys <= view.mrt.Keys
  }

  lemma LowestByCounting(view: View, tx: Transaction, alpha: nat, beta: nat, x: nat)
    requires Params(alpha, beta, |view.mrt|)
    ensures x <= BestLowerBound(view, tx, alpha, beta) <==> |Below(Lowest(view, tx), x)| <= alpha / 2 - beta
  {
    var lowest := Lowest(view, tx);
    assert lowest.Keys == view.mrt.Keys;
    assert |lowest| == |lowest.Keys| == |view.mrt.Keys| == |view.mrt|;
    MinByCounting(lowest, alpha, beta, x);
  }

  lemma HighestByCounting(view: View, tx: Transaction, alpha: nat, beta: nat, x: nat)
    requires Params(alpha, beta, |view.mrt|)
    ensures BestUpperBound(view, tx, alpha, beta).Some?
    ensures x >= BestUpperBound(view, tx, alpha, beta).value <==> |Above(Highest(view, tx), x)| <= (alpha + 1) / 2 - 1 - beta
  {
    var highest := Highest(view, tx);
    assert highest.Keys == view.mrt.Keys;
    assert |highest| == |highest.Keys| == |view.mrt.Keys| == |view.mrt|;
    MaxByCounting(highest, alpha, beta, x);
  }

  /** Honest replicas put no timestamp outside what the view leaves possible. */
  lemma HonestStayInRange(view: View, tx: Transaction, faulty: set<ReplicaId>, other: Row, alpha: nat, beta: nat, x: nat)
    requires CouldHold(view, tx, faulty, other, alpha, beta)
    ensures Below(other, x) <= Below(Lowest(view, tx), x) + faulty
    ensures Above(other, x) <= Above(Highest(view, tx), x) + faulty
  {
    forall r: ReplicaId | r in other && r !in faulty
      ensures r in Below(other, x) ==> r in Below(Lowest(view, tx), x)
      ensures r in Above(other, x) ==> r in Above(Highest(view, tx), x)
    {
      assert Plausible(view, tx, r, other[r]);
    }
  }

  /** `suspects` are replicas known to misbehave. */
  lemma LowerBoundHolds(view: View, tx: Transaction, suspects: set<ReplicaId>, alpha: nat, beta: nat, x: nat, faulty: set<ReplicaId>, other: Row)
    requires CouldHold(view, tx, faulty, other, alpha, beta) && suspects <= faulty && alpha > 0
    requires |Below(Lowest(view, tx), x) - suspects| <= alpha / 2 - beta
    ensures Middle(SortedValues(other)) >= x
  {
    HonestStayInRange(view, tx, faulty, other, alpha, beta, x);
    HalvesGrow(alpha, |other|);
    MiddleAtLeast(other, x, Below(Lowest(view, tx), x) - suspects, faulty);
  }

  lemma UpperBoundHolds(view: View, tx: Transaction, suspects: set<ReplicaId>, alpha: nat, beta: nat, x: nat, faulty: set<ReplicaId>, other: Row)
    requires CouldHold(view, tx, faulty, other, alpha, beta) && suspects <= faulty && alpha > 0
    requires |Above(Highest(view, tx), x) - suspects| <= (alpha + 1) / 2 - 1 - beta
    ensures Middle(SortedValues(other)) <= x
  {
    HonestStayInRange(view, tx, faulty, other, alpha, beta, x);
    HalvesGrow(alpha, |other|);
    MiddleAtMost(other, x, Above(Highest(view, tx), x) - suspects, faulty);
  }

  /** `count` elements of a set. */
  lemma SomeOf(s: set<ReplicaId>, count: nat) returns (t: set<ReplicaId>)
    requires count <= |s|
    ensures t <= s && |t| == count
  {
    if count == 0 {
      t := {};
    } else {
      var r: ReplicaId :| r in s;
      var rest := SomeOf(s - {r}, count - 1);
      t := rest + {r};
    }
  }

  /**
   The worst case: `chosen` replicas turn out at their extreme, beta faulty ones, all suspects among them, say `lie`,
   and enough others to make up alpha turn out as `base` says.
   */
  lemma WorstCase(view: View, tx: Transaction, suspects: set<ReplicaId>, chosen: set<ReplicaId>, base: Row, lie: Timestamp, alpha: nat, beta: nat)
    returns (faulty: set<ReplicaId>, other: Row)
    requires Configured(view, alpha, beta) && base.Keys == view.mrt.Keys
    requires forall r: ReplicaId :: r in base ==> Plausible(view, tx, r, base[r])
    requires chosen <= view.mrt.Keys && |chosen| + beta <= alpha
    requires suspects <= view.mrt.Keys && |suspects| <= beta && chosen !! suspects
    ensures CouldHold(view, tx, faulty, other, alpha, beta) && suspects <= faulty
    ensures |other| == alpha && |faulty| == beta && faulty !! chosen && chosen + faulty <= other.Keys
    ensures forall r: ReplicaId :: r in other ==> other[r] == if r in faulty then lie else base[r]
  {
    var all := view.mrt.Keys;
    assert |all| == |view.mrt|;
    var free := Complement(all, chosen, suspects);
    var more := SomeOf(free, beta - |suspects|);
    faulty := suspects + more;
    assert |faulty| == beta;
    var rest := Complement(all, chosen, faulty);
    var used := chosen + faulty;
    assert |used| == |chosen| + beta;
    var fill := SomeOf(rest, alpha - |used|);
    var keys := used + fill;
    assert |keys| == |used| + |fill|;
    other := map r: ReplicaId | r in keys :: if r in faulty then lie else base[r];
    assert other.Keys == keys && |other| == |other.Keys|;
  }

  lemma Complement(all: set<ReplicaId>, s: set<ReplicaId>, t: set<ReplicaId>) returns (rest: set<ReplicaId>)
    requires s + t <= all && s !! t
    ensures rest == all - s - t && |rest| == |all| - |s| - |t|
  {
    rest := all - s - t;
    assert all == s + t + rest;
    assert |s + t| == |s| + |t|;
    assert |s + t + rest| == |s + t| + |rest|;
  }

  lemma LowerBoundIsTight(view: View, tx: Transaction, suspects: set<ReplicaId>, alpha: nat, beta: nat, x: nat)
    returns (faulty: set<ReplicaId>, other: Row)
    requires Configured(view, alpha, beta) && suspects <= view.mrt.Keys && |suspects| <= beta
    requires |Below(Lowest(view, tx), x) - suspects| > alpha / 2 - beta
    ensures CouldHold(view, tx, faulty, other, alpha, beta) && suspects <= faulty && Middle(SortedValues(other)) < x
  {
    var low := SomeOf(Below(Lowest(view, tx), x) - suspects, alpha / 2 - beta + 1);
    faulty, other := WorstCase(view, tx, suspects, low, Lowest(view, tx), 0, alpha, beta);
    SomethingBelow(low, Lowest(view, tx), x);
    ManyBelow(other, low, faulty, x);
    AtLeastByCounting(other, alpha / 2, x);
  }

  lemma SomethingBelow(low: set<ReplicaId>, row: Row, x: nat)
    requires low != {} && low <= Below(row, x)
    ensures x > 0
  {
    var r :| r in low;
  }

  lemma ManyBelow(other: Row, low: set<ReplicaId>, faulty: set<ReplicaId>, x: nat)
    requires low !! faulty && low + faulty <= Below(other, x)
    ensures |Below(other, x)| >= |low| + |faulty|
  {
    SubsetSize(low + faulty, Below(other, x));
    assert |low + faulty| == |low| + |faulty|;
  }

  lemma ManyAbove(other: Row, high: set<ReplicaId>, faulty: set<ReplicaId>, x: nat)
    requires high !! faulty && high + faulty <= Above(other, x)
    ensures |Above(other, x)| >= |high| + |faulty|
  {
    SubsetSize(high + faulty, Above(other, x));
    assert |high + faulty| == |high| + |faulty|;
  }

  lemma UpperBoundIsTight(view: View, tx: Transaction, suspects: set<ReplicaId>, alpha: nat, beta: nat, x: nat)
    returns (faulty: set<ReplicaId>, other: Row)
    requires Configured(view, alpha, beta) && suspects <= view.mrt.Keys && |suspects| <= beta
    requires |Above(Highest(view, tx), x) - suspects| > (alpha + 1) / 2 - 1 - beta
    ensures CouldHold(view, tx, faulty, other, alpha, beta) && suspects <= faulty && Middle(SortedValues(other)) > x
  {
    var high := SomeOf(Above(Highest(view, tx), x) - suspects, (alpha + 1) / 2 - beta);
    faulty, other := WorstCase(view, tx, suspects, high, Highest(view, tx), U64_MAX, alpha, beta);
    SomethingAbove(high, Highest(view, tx), x);
    ManyAbove(other, high, faulty, x);
    AtMostByCounting(other, alpha / 2, x);
  }

  lemma SomethingAbove(high: set<ReplicaId>, row: Row, x: nat)
    requires high != {} && high <= Above(row, x)
    ensures x < U64_MAX
  {
    var r :| r in high;
  }

  /**
   The exact guarantee: `x` is below every median another client could ever hold if and only if it does not exceed
   the bound that counts the most recent timestamp of every replica whose timestamp for `tx` is missing.
   */
  lemma LowerBoundExactly(view: View, tx: Transaction, alpha: nat, beta: nat, x: nat)
    requires Configured(view, alpha, beta)
    ensures BoundsFromBelow(view, tx, alpha, beta, x) <==> x <= BestLowerBound(view, tx, alpha, beta)
  {
    LowestByCounting(view, tx, alpha, beta, x);
    assert Below(Lowest(view, tx), x) - {} == Below(Lowest(view, tx), x);
    if x <= BestLowerBound(view, tx, alpha, beta) {
      forall faulty, other | CouldHold(view, tx, faulty, other, alpha, beta) ensures Middle(SortedValues(other)) >= x {
        LowerBoundHolds(view, tx, {}, alpha, beta, x, faulty, other);
      }
    } else {
      var faulty, other := LowerBoundIsTight(view, tx, {}, alpha, beta, x);
    }
  }

  lemma UpperBoundExactly(view: View, tx: Transaction, alpha: nat, beta: nat, x: nat)
    requires Configured(view, alpha, beta)
    ensures BestUpperBound(view, tx, alpha, beta).Some?
    ensures BoundsFromAbove(view, tx, alpha, beta, x) <==> x >= BestUpperBound(view, tx, alpha, beta).value
  {
    HighestByCounting(view, tx, alpha, beta, x);
    assert Above(Highest(view, tx), x) - {} == Above(Highest(view, tx), x);
    if x >= BestUpperBound(view, tx, alpha, beta).value {
      forall faulty, other | CouldHold(view, tx, faulty, other, alpha, beta) ensures Middle(SortedValues(other)) <= x {
        UpperBoundHolds(view, tx, {}, alpha, beta, x, faulty, other);
      }
    } else {
      var faulty, other := UpperBoundIsTight(view, tx, {}, alpha, beta, x);
    }
  }

  // --- What the reads of this client are worth ---

  /** The replicas that have no timestamp for `tx` here. */
  function Missing(view: View, tx: Transaction): set<ReplicaId> {
    view.mrt.Keys - RowOf(view, tx).Keys
  }

  /** Those among them that may still give it one below `x`. */
  function Behind(view: View, tx: Transaction, x: nat): set<ReplicaId> {
    set r | r in Missing(view, tx) && r in view.mrt && view.mrt[r] < x
  }

  lemma CountLowest(view: View, tx: Transaction, alpha: nat, beta: nat, x: nat)
    requires Configured(view, alpha, beta)
    ensures |Below(Lowest(view, tx), x)| == |Below(RowOf(view, tx), x)| + |Behind(view, tx, x)|
  {
    assert Below(Lowest(view, tx), x) == Below(RowOf(view, tx), x) + Behind(view, tx, x);
    assert Below(RowOf(view, tx), x) !! Behind(view, tx, x);
  }

  lemma CountHighest(view: View, tx: Transaction, alpha: nat, beta: nat, x: nat)
    requires Configured(view, alpha, beta) && x < U64_MAX
    ensures |Above(Highest(view, tx), x)| == |Above(RowOf(view, tx), x)| + |Missing(view, tx)|
  {
    assert Above(Highest(view, tx), x) == Above(RowOf(view, tx), x) + Missing(view, tx);
    assert Above(RowOf(view, tx), x) !! Missing(view, tx);
  }

  /**
   `rmin` bounds every other client's median from below if and only if the timestamps held below it and the replicas
   missing from the row whose most recent timestamp is below it are together at most alpha/2 - beta. The code leaves
   the missing replicas out once the transaction is known.
   */
  lemma RMinIsBoundIff(view: View, tx: Transaction, alpha: nat, beta: nat)
    requires Configured(view, alpha, beta)
    ensures var rmin := RMin(view, tx, alpha, beta);
            BoundsFromBelow(view, tx, alpha, beta, rmin) <==>
            |Below(RowOf(view, tx), rmin)| + |Behind(view, tx, rmin)| <= alpha / 2 - beta
  {
    var rmin := RMin(view, tx, alpha, beta);
    LowerBoundExactly(view, tx, alpha, beta, rmin);
    LowestByCounting(view, tx, alpha, beta, rmin);
    CountLowest(view, tx, alpha, beta, rmin);
  }

  /**
   `rmax` bounds them from above if and only if it is the largest timestamp there is, or the timestamps held above it
   and all the missing replicas are together at most ceil(alpha/2) - 1 - beta.
   */
  lemma RMaxIsBoundIff(view: View, tx: Transaction, alpha: nat, beta: nat)
    requires Configured(view, alpha, beta) && RMax(view, tx, alpha, beta).Some?
    ensures var rmax := RMax(view, tx, alpha, beta).value;
            BoundsFromAbove(view, tx, alpha, beta, rmax) <==>
            rmax == U64_MAX || |Above(RowOf(view, tx), rmax)| + |Missing(view, tx)| <= (alpha + 1) / 2 - 1 - beta
  {
    var rmax := RMax(view, tx, alpha, beta).value;
    UpperBoundExactly(view, tx, alpha, beta, rmax);
    if rmax < U64_MAX {
      HighestByCounting(view, tx, alpha, beta, rmax);
      CountHighest(view, tx, alpha, beta, rmax);
    }
  }

  ghost predicate Distinct(row: Row) {
    forall q: ReplicaId, r: ReplicaId :: q in row && r in row && q != r ==> row[q] != row[r]
  }

  lemma EqualOrBelow(row: Row, x: nat)
    requires Distinct(row)
    ensures |Below(row, x + 1)| <= |Below(row, x)| + 1
  {
    var equal := Below(row, x + 1) - Below(row, x);
    AtMostOne(equal);
    assert Below(row, x + 1) == Below(row, x) + equal;
  }

  /** Without ties, exactly `j` entries lie below the order statistic at rank `j`. */
  lemma RankWithoutTies(row: Row, j: nat, x: Timestamp)
    requires Distinct(row) && j < |row| && x == SortedValues(row)[j]
    ensures |Below(row, x)| == j && |Above(row, x)| == |row| - 1 - j
  {
    AtMostRankBelow(row, j);
    BelowOrAbove(row, x);
    EqualOrBelow(row, x);
  }

  lemma AtMostOne(s: set<ReplicaId>)
    requires forall q, r :: q in s && r in s ==> q == r
    ensures |s| <= 1
  {
    if s != {} {
      var r :| r in s;
      assert s == {r};
    }
  }

  /** More than `rank` timestamps of the row are at most `m`. */
  ghost predicate Reaches(row: Row, rank: int, m: nat) {
    |Below(row, m + 1)| > rank
  }

  /** They are at most the replica's most recent timestamp. */
  ghost predicate CaughtUpWith(view: View, row: Row, r: ReplicaId, rank: int) {
    r in view.mrt && Reaches(row, rank, view.mrt[r])
  }

  /** `rmin` is the least value that does. */
  ghost predicate IsLeastToReach(row: Row, rank: int, rmin: nat) {
    forall m: nat :: Reaches(row, rank, m) <==> m >= rmin
  }

  lemma ReachesIff(row: Row, alpha: nat, beta: nat, rmin: nat, m: nat)
    requires alpha >= 4 * beta + 1 && |row| + beta >= alpha && rmin == MinOf(SortedValues(row), alpha, beta)
    ensures Reaches(row, alpha / 2 - beta, m) <==> m >= rmin
  {
    MinByCounting(row, alpha, beta, m + 1);
  }

  lemma RMinIsLeast(row: Row, alpha: nat, beta: nat, rank: int, rmin: nat)
    requires alpha >= 4 * beta + 1 && |row| + beta >= alpha
    requires rank == alpha / 2 - beta && rmin == MinOf(SortedValues(row), alpha, beta)
    ensures IsLeastToReach(row, rank, rmin)
  {
    forall m: nat ensures Reaches(row, rank, m) <==> m >= rmin {
      ReachesIff(row, alpha, beta, rmin, m);
    }
  }

  /** Every missing replica's most recent timestamp is at least `x`. */
  ghost predicate NobodyBehind(view: View, tx: Transaction, x: nat) {
    forall r: ReplicaId :: r in Missing(view, tx) ==> r in view.mrt && view.mrt[r] >= x
  }

  /** More than `rank` timestamps of the row are at most the most recent one of each missing replica. */
  ghost predicate EveryoneCaughtUp(view: View, tx: Transaction, row: Row, rank: int) {
    forall r: ReplicaId :: r in Missing(view, tx) ==> CaughtUpWith(view, row, r, rank)
  }

  lemma EveryoneCaughtUpIff(view: View, tx: Transaction, row: Row, rank: int, rmin: nat)
    requires IsLeastToReach(row, rank, rmin)
    ensures EveryoneCaughtUp(view, tx, row, rank) <==> NobodyBehind(view, tx, rmin)
  {
    forall r: ReplicaId | r in Missing(view, tx) ensures CaughtUpWith(view, row, r, rank) <==> r in view.mrt && view.mrt[r] >= rmin {
      assert Reaches(row, rank, view.mrt[r]) <==> view.mrt[r] >= rmin;
    }
  }

  lemma RMinBoundsUnlessBehind(view: View, tx: Transaction, alpha: nat, beta: nat)
    requires Configured(view, alpha, beta) && tx in view.tsps && |view.tsps[tx]| + beta >= alpha && Distinct(view.tsps[tx])
    ensures BoundsFromBelow(view, tx, alpha, beta, RMin(view, tx, alpha, beta)) <==> |Behind(view, tx, RMin(view, tx, alpha, beta))| == 0
  {
    RMinIsBoundIff(view, tx, alpha, beta);
    TimestampsBelowRMin(view.tsps[tx], alpha, beta);
  }

  /**
   Without ties, `rmin` of a known transaction is a bound for other clients if and only if no missing replica's most
   recent timestamp is below it: for each of them, more than alpha/2 - beta timestamps of the row are at most its most
   recent one.
   */
  lemma RMinWithoutTiesIsBoundIff(view: View, tx: Transaction, alpha: nat, beta: nat)
    requires Configured(view, alpha, beta) && tx in view.tsps && |view.tsps[tx]| + beta >= alpha && Distinct(view.tsps[tx])
    ensures BoundsFromBelow(view, tx, alpha, beta, RMin(view, tx, alpha, beta)) <==> NobodyBehind(view, tx, RMin(view, tx, alpha, beta))
    ensures BoundsFromBelow(view, tx, alpha, beta, RMin(view, tx, alpha, beta)) <==>
            EveryoneCaughtUp(view, tx, view.tsps[tx], alpha / 2 - beta)
  {
    RMinBoundsUnlessBehind(view, tx, alpha, beta);
    BehindOrCaughtUp(view, tx, view.tsps[tx], alpha, beta, RMin(view, tx, alpha, beta));
  }

  lemma BehindOrCaughtUp(view: View, tx: Transaction, row: Row, alpha: nat, beta: nat, rmin: nat)
    requires alpha >= 4 * beta + 1 && |row| + beta >= alpha && rmin == MinOf(SortedValues(row), alpha, beta)
    ensures |Behind(view, tx, rmin)| == 0 <==> NobodyBehind(view, tx, rmin)
    ensures NobodyBehind(view, tx, rmin) <==> EveryoneCaughtUp(view, tx, row, alpha / 2 - beta)
  {
    NobodyBehindIff(view, tx, rmin);
    RMinIsLeast(row, alpha, beta, alpha / 2 - beta, rmin);
    EveryoneCaughtUpIff(view, tx, row, alpha / 2 - beta, rmin);
  }

  lemma TimestampsBelowRMin(row: Row, alpha: nat, beta: nat)
    requires alpha >= 4 * beta + 1 && |row| + beta >= alpha && Distinct(row)
    ensures |Below(row, MinOf(SortedValues(row), alpha, beta))| == alpha / 2 - beta
  {
    CountBelowRMin(row, alpha, beta, MinOf(SortedValues(row), alpha, beta));
  }

  lemma CountBelowRMin(row: Row, alpha: nat, beta: nat, rmin: nat)
    requires alpha >= 4 * beta + 1 && |row| + beta >= alpha && Distinct(row)
    requires rmin == MinOf(SortedValues(row), alpha, beta)
    ensures |Below(row, rmin)| == alpha / 2 - beta
  {
    MinByCounting(row, alpha, beta, rmin);
    MinByCounting(row, alpha, beta, rmin + 1);
    assert |Below(row, rmin + 1)| > alpha / 2 - beta;
    EqualOrBelow(row, rmin);
  }

  lemma NobodyBehindIff(view: View, tx: Transaction, x: nat)
    ensures |Behind(view, tx, x)| == 0 <==> NobodyBehind(view, tx, x)
  {
    assert |Behind(view, tx, x)| == 0 <==> Behind(view, tx, x) == {};
    assert Behind(view, tx, x) == {} <==> forall r: ReplicaId :: r in Missing(view, tx) ==> r !in Behind(view, tx, x);
  }

  /** Without ties, `rmax` of a known transaction is a bound if and only if no replica is missing (or it is the maximum). */
  lemma RMaxWithoutTiesIsBoundIff(view: View, tx: Transaction, alpha: nat, beta: nat)
    requires Configured(view, alpha, beta) && tx in view.tsps && |view.tsps[tx]| + beta >= alpha && Distinct(view.tsps[tx])
    ensures RMax(view, tx, alpha, beta).Some?
    ensures var rmax := RMax(view, tx, alpha, beta).value;
            BoundsFromAbove(view, tx, alpha, beta, rmax) <==> rmax == U64_MAX || Missing(view, tx) == {}
  {
    TimestampsAboveRMax(view.tsps[tx], alpha, beta);
    RMaxIsBoundIff(view, tx, alpha, beta);
    assert |Missing(view, tx)| == 0 <==> Missing(view, tx) == {};
  }

  lemma TimestampsAboveRMax(row: Row, alpha: nat, beta: nat)
    requires alpha >= 4 * beta + 1 && |row| + beta >= alpha && Distinct(row)
    ensures MaxOf(SortedValues(row), alpha, beta).Some?
    ensures |Above(row, MaxOf(SortedValues(row), alpha, beta).value)| == (alpha + 1) / 2 - 1 - beta
  {
    MaxIndex(SortedValues(row), alpha, beta);
    CountAboveRMax(row, alpha, beta, |row| + beta - (alpha + 1) / 2, MaxOf(SortedValues(row), alpha, beta).value);
  }

  lemma CountAboveRMax(row: Row, alpha: nat, beta: nat, j: nat, rmax: Timestamp)
    requires Distinct(row) && j == |row| + beta - (alpha + 1) / 2 && j < |row| && rmax == SortedValues(row)[j]
    ensures |Above(row, rmax)| == (alpha + 1) / 2 - 1 - beta
  {
    RankWithoutTies(row, j, rmax);
  }

  /** With no timestamp for `tx` or one from every replica, the reported bounds are the exact ones. */
  lemma ReportedBoundsAreExactWhenComplete(view: View, tx: Transaction, alpha: nat, beta: nat)
    requires tx !in view.tsps || view.tsps[tx].Keys == view.mrt.Keys
    ensures RMin(view, tx, alpha, beta) == BestLowerBound(view, tx, alpha, beta)
    ensures RMax(view, tx, alpha, beta) == BestUpperBound(view, tx, alpha, beta)
  {
    assert Lowest(view, tx) == KnownTimestamps(view, tx);
    assert Highest(view, tx) == LatestTimestamps(view, tx);
  }

  /** While a transaction is unknown, `rperf` bounds its future medians, and no larger value does. */
  lemma RPerfIsExact(view: View, tx: Transaction, alpha: nat, beta: nat, x: nat)
    requires Configured(view, alpha, beta) && tx !in view.tsps
    ensures BoundsFromBelow(view, tx, alpha, beta, x) <==> x <= RPerf(view, alpha, beta)
  {
    LowerBoundExactly(view, tx, alpha, beta, x);
    LowestOfUnknown(view, tx);
  }

  lemma LowestOfUnknown(view: View, tx: Transaction)
    requires tx !in view.tsps
    ensures Lowest(view, tx) == view.mrt
  {
  }

  lemma RunIsConfigured(env: Env, arrivals: seq<Vote>, alpha: nat, beta: nat)
    requires Params(alpha, beta, |env.replicas|)
    ensures Configured(Run(env, arrivals).view, alpha, beta)
  {
    RunKeepsInv(env, arrivals);
    var mrt := Run(env, arrivals).view.mrt;
    assert |mrt| == |mrt.Keys| == |env.replicas.Keys| == |env.replicas|;
  }

  /**
   Past-perfection: if client B reads `rperf` while it has not seen `tx`, then whenever any client A holds alpha
   or more timestamps for `tx`, before or after, their median is at least B's `rperf`. At most beta replicas
   misbehave, and votes reach the two clients in any order, duplicated or not at all.
   */
  lemma PastPerfection(env: Env, a: seq<Vote>, b: seq<Vote>, faulty: set<ReplicaId>, streams: Streams, tx: Transaction, alpha: nat, beta: nat)
    requires Params(alpha, beta, |env.replicas|)
    requires |faulty| <= beta && OneNetwork(env, a, b, faulty, streams)
    requires tx !in Run(env, b).view.tsps
    requires |RowOf(Run(env, a).view, tx)| >= alpha
    ensures Middle(SortedValues(RowOf(Run(env, a).view, tx))) >= RPerf(Run(env, b).view, alpha, beta)
  {
    var vb := Run(env, b).view;
    RunIsConfigured(env, b, alpha, beta);
    RunsCouldHold(env, b, a, faulty, streams, tx, alpha, beta);
    RPerfIsExact(vb, tx, alpha, beta, RPerf(vb, alpha, beta));
  }

  /** The bounds with the missing replicas filled in enclose the median of every client, at any time. */
  lemma FilledBoundsEncloseEveryClient(env: Env, a: seq<Vote>, b: seq<Vote>, faulty: set<ReplicaId>, streams: Streams, tx: Transaction, alpha: nat, beta: nat)
    requires Params(alpha, beta, |env.replicas|)
    requires |faulty| <= beta && OneNetwork(env, a, b, faulty, streams)
    requires |RowOf(Run(env, a).view, tx)| >= alpha
    ensures var vb := Run(env, b).view;
            && BestUpperBound(vb, tx, alpha, beta).Some?
            && BestLowerBound(vb, tx, alpha, beta) <= Middle(SortedValues(RowOf(Run(env, a).view, tx)))
               <= BestUpperBound(vb, tx, alpha, beta).value
  {
    var vb := Run(env, b).view;
    RunIsConfigured(env, b, alpha, beta);
    RunsCouldHold(env, b, a, faulty, streams, tx, alpha, beta);
    LowerBoundExactly(vb, tx, alpha, beta, BestLowerBound(vb, tx, alpha, beta));
    UpperBoundExactly(vb, tx, alpha, beta, BestUpperBound(vb, tx, alpha, beta).GetOr(0));
  }

  // --- A run in which the reported bounds do not hold for another client ---

  lemma TwoHonestReplicas(streams: Streams)
    requires streams(0)(0) == Content(TX, 10) && streams(1)(0) == Content(TX, 5)
    ensures Params(1, 0, |TWO_REPLICAS.replicas|)
    ensures OneNetwork(TWO_REPLICAS, [VoteFor(0, 10)], [VoteFor(1, 5)], {}, streams)
  {
    assert TWO_REPLICAS.replicas.Keys == {0, 1};
    var a, b := [VoteFor(0, 10)], [VoteFor(1, 5)];
    forall r: ReplicaId | r in TWO_REPLICAS.replicas
      ensures Honest(TWO_REPLICAS, a, r, streams(r)) && Honest(TWO_REPLICAS, b, r, streams(r))
    {
      HonestOneVote(0, 10, r, streams(r));
      HonestOneVote(1, 5, r, streams(r));
    }
  }

  lemma HonestOneVote(r: ReplicaId, ts: Timestamp, q: ReplicaId, str: Stream)
    requires r < 2 && (q == r ==> str(0) == Content(TX, ts))
    ensures Honest(TWO_REPLICAS, [VoteFor(r, ts)], q, str)
  {
    OneVoteView(TWO_REPLICAS, r, ts);
  }

  /**
   Two honest replicas, alpha 1, beta 0: one client has heard from replica 0 only, the other from replica 1 only.
   The first client's `rmin` lies above the second's median, and the second's `rmax` below the first's.
   */
  lemma ReportedBoundsCanFail(streams: Streams)
    requires streams(0)(0) == Content(TX, 10) && streams(1)(0) == Content(TX, 5)
    ensures var a, b := [VoteFor(0, 10)], [VoteFor(1, 5)];
            var va, vb := Run(TWO_REPLICAS, a).view, Run(TWO_REPLICAS, b).view;
            && Params(1, 0, |TWO_REPLICAS.replicas|) && OneNetwork(TWO_REPLICAS, a, b, {}, streams)
            && RMin(va, TX, 1, 0) > Middle(SortedValues(RowOf(vb, TX)))
            && RMax(vb, TX, 1, 0).Some? && RMax(vb, TX, 1, 0).value < Middle(SortedValues(RowOf(va, TX)))
  {
    TwoHonestReplicas(streams);
    SingletonBounds(0, 10);
    SingletonBounds(1, 5);
  }
}
