/** Sorted lists of timestamps, and how an element's rank relates to counting the entries below or above it. */
module OrderStatistics {
  import opened Types

  ghost predicate IsSorted(s: seq<Timestamp>) {
    forall i, j :: 0 <= i < j < |s| ==> s[i] <= s[j]
  }

  function CountBelow(s: seq<Timestamp>, x: nat): (c: nat)
    ensures c <= |s|
  {
    if s == [] then 0 else CountBelow(s[..|s| - 1], x) + if s[|s| - 1] < x then 1 else 0
  }

  lemma {:induction false} CountBelowConcat(s: seq<Timestamp>, t: seq<Timestamp>, x: nat)
    ensures CountBelow(s + t, x) == CountBelow(s, x) + CountBelow(t, x)
  {
    if t == [] {
      assert s + t == s;
    } else {
      CountBelowConcat(s, t[..|t| - 1], x);
      assert (s + t)[..|s + t| - 1] == s + t[..|t| - 1];
    }
  }

  /** In a sorted list, element `j` is at least `x` exactly when at most `j` elements are below `x`. */
  lemma {:induction false} RankByCounting(s: seq<Timestamp>, j: nat, x: nat)
    requires IsSorted(s) && j < |s|
    ensures s[j] >= x <==> CountBelow(s, x) <= j
  {
    var last := |s| - 1;
    if last == 0 {
      assert s[..0] == [];
    } else if j < last {
      RankByCounting(s[..last], j, x);
    } else {
      RankByCounting(s[..last], last - 1, x);
    }
  }

  /** Sorting is unique: a sorted list is decided by how many elements lie below each value. */
  lemma SortedIsUnique(s: seq<Timestamp>, t: seq<Timestamp>)
    requires IsSorted(s) && IsSorted(t) && |s| == |t|
    requires forall x: nat :: CountBelow(s, x) == CountBelow(t, x)
    ensures s == t
  {
    forall j | 0 <= j < |s| ensures s[j] == t[j] {
      RankByCounting(s, j, s[j]);
      RankByCounting(t, j, s[j]);
      RankByCounting(s, j, t[j]);
      RankByCounting(t, j, t[j]);
    }
  }

  function Insert(s: seq<Timestamp>, v: Timestamp): (t: seq<Timestamp>)
    ensures |t| == |s| + 1
  {
    if s == [] || s[|s| - 1] <= v then s + [v]
    else Insert(s[..|s| - 1], v) + [s[|s| - 1]]
  }

  /** The library sort, as a function. */
  function Sort(s: seq<Timestamp>): (t: seq<Timestamp>)
    ensures |t| == |s|
  {
    if s == [] then [] else Insert(Sort(s[..|s| - 1]), s[|s| - 1])
  }

  lemma {:induction false} InsertSorts(s: seq<Timestamp>, v: Timestamp)
    requires IsSorted(s)
    ensures IsSorted(Insert(s, v))
    ensures Insert(s, v)[|s|] == if s == [] || s[|s| - 1] <= v then v else s[|s| - 1]
  {
    if s == [] || s[|s| - 1] <= v {
    } else {
      InsertSorts(s[..|s| - 1], v);
      var front := Insert(s[..|s| - 1], v);
      assert |front| == |s| && front[|s| - 1] <= s[|s| - 1];
    }
  }

  lemma {:induction false} InsertCounts(s: seq<Timestamp>, v: Timestamp, x: nat)
    ensures CountBelow(Insert(s, v), x) == CountBelow(s, x) + if v < x then 1 else 0
  {
    if s == [] || s[|s| - 1] <= v {
      assert (s + [v])[..|s|] == s;
    } else {
      var front := Insert(s[..|s| - 1], v);
      InsertCounts(s[..|s| - 1], v, x);
      assert (front + [s[|s| - 1]])[..|front|] == front;
    }
  }

  lemma {:induction false} SortSorts(s: seq<Timestamp>)
    ensures IsSorted(Sort(s))
    ensures forall x: nat :: CountBelow(Sort(s), x) == CountBelow(s, x)
  {
    if s == [] {
    } else {
      SortSorts(s[..|s| - 1]);
      InsertSorts(Sort(s[..|s| - 1]), s[|s| - 1]);
      forall x: nat ensures CountBelow(Sort(s), x) == CountBelow(s, x) {
        InsertCounts(Sort(s[..|s| - 1]), s[|s| - 1], x);
      }
    }
  }

  // --- The values of a map, in some iteration order ---

  /** `order` lists each of `keys` exactly once. */
  ghost predicate Enumerates(order: seq<ReplicaId>, keys: set<ReplicaId>) {
    (forall r: ReplicaId :: r in order <==> r in keys) && NoDuplicates(order)
  }

  function ValuesIn(order: seq<ReplicaId>, m: Row): (s: seq<Timestamp>)
    requires forall r <- order :: r in m
    ensures |s| == |order|
    ensures forall i :: 0 <= i < |order| ==> s[i] == m[order[i]]
  {
    if order == [] then [] else ValuesIn(order[..|order| - 1], m) + [m[order[|order| - 1]]]
  }

  ghost function Below(m: Row, x: nat): set<ReplicaId> {
    set r: ReplicaId | r in m && m[r] < x
  }

  ghost function Above(m: Row, x: nat): set<ReplicaId> {
    set r: ReplicaId | r in m && m[r] > x
  }

  ghost function Elements(order: seq<ReplicaId>): set<ReplicaId> {
    set r: ReplicaId | r in order
  }

  ghost predicate NoDuplicates(order: seq<ReplicaId>) {
    forall i, j :: 0 <= i < j < |order| ==> order[i] != order[j]
  }

  lemma ElementsSnoc(order: seq<ReplicaId>)
    requires order != []
    ensures Elements(order) == Elements(order[..|order| - 1]) + {order[|order| - 1]}
    ensures NoDuplicates(order) ==> order[|order| - 1] !in Elements(order[..|order| - 1])
  {
    assert order == order[..|order| - 1] + [order[|order| - 1]];
  }

  lemma {:induction false} ElementsSize(order: seq<ReplicaId>)
    requires NoDuplicates(order)
    ensures |Elements(order)| == |order|
  {
    if order == [] {
      assert Elements(order) == {};
    } else {
      ElementsSnoc(order);
      ElementsSize(order[..|order| - 1]);
    }
  }

  lemma {:induction false} CountsElements(order: seq<ReplicaId>, m: Row, x: nat)
    requires (forall r <- order :: r in m) && NoDuplicates(order)
    ensures CountBelow(ValuesIn(order, m), x) == |Elements(order) * Below(m, x)|
  {
    if order == [] {
      assert Elements(order) * Below(m, x) == {};
    } else {
      var prefix, r := order[..|order| - 1], order[|order| - 1];
      CountsElements(prefix, m, x);
      var values := ValuesIn(prefix, m);
      assert ValuesIn(order, m) == values + [m[r]];
      assert (values + [m[r]])[..|values|] == values;
      ElementsSnoc(order);
      OneMore(Elements(prefix), r, Below(m, x));
    }
  }

  lemma OneMore(s: set<ReplicaId>, r: ReplicaId, b: set<ReplicaId>)
    requires r !in s
    ensures |(s + {r}) * b| == |s * b| + if r in b then 1 else 0
  {
    assert (s + {r}) * b == if r in b then s * b + {r} else s * b;
  }

  /** Whatever the iteration order, the list counts the map's entries below each value. */
  lemma ValuesCount(order: seq<ReplicaId>, m: Row, x: nat)
    requires Enumerates(order, m.Keys)
    ensures CountBelow(ValuesIn(order, m), x) == |Below(m, x)|
    ensures |order| == |m|
  {
    CountsElements(order, m, x);
    ElementsSize(order);
    assert Elements(order) == m.Keys;
    assert Elements(order) * Below(m, x) == Below(m, x);
  }

  lemma EnumerationExists(keys: set<ReplicaId>) returns (order: seq<ReplicaId>)
    ensures Enumerates(order, keys)
  {
    if keys == {} {
      order := [];
    } else {
      var r: ReplicaId :| r in keys;
      var rest := EnumerationExists(keys - {r});
      order := rest + [r];
    }
  }

  /** The map's values in ascending order. */
  ghost function SortedValues(m: Row): (s: seq<Timestamp>)
    ensures |s| == |m| && IsSorted(s)
    ensures forall x: nat :: CountBelow(s, x) == |Below(m, x)|
  {
    var order := SomeOrder(m.Keys);
    var values := ValuesIn(order, m);
    SortSorts(values);
    ValuesCount(order, m, 0);
    assert forall x: nat :: CountBelow(values, x) == |Below(m, x)| by {
      forall x: nat ensures CountBelow(values, x) == |Below(m, x)| {
        ValuesCount(order, m, x);
      }
    }
    Sort(values)
  }

  ghost function SomeOrder(keys: set<ReplicaId>): (order: seq<ReplicaId>)
    ensures Enumerates(order, keys)
  {
    assert exists order :: Enumerates(order, keys) by {
      var order := EnumerationExists(keys);
    }
    var order :| Enumerates(order, keys);
    order
  }

  /** Sorting makes the iteration order irrelevant. */
  lemma IterationOrderIsIrrelevant(order: seq<ReplicaId>, m: Row)
    requires Enumerates(order, m.Keys)
    ensures Sort(ValuesIn(order, m)) == SortedValues(m)
  {
    var values := ValuesIn(order, m);
    SortSorts(values);
    ValuesCount(order, m, 0);
    forall x: nat ensures CountBelow(Sort(values), x) == CountBelow(SortedValues(m), x) {
      ValuesCount(order, m, x);
    }
    SortedIsUnique(Sort(values), SortedValues(m));
  }

  lemma AtLeastByCounting(m: Row, j: nat, x: nat)
    requires j < |m|
    ensures SortedValues(m)[j] >= x <==> |Below(m, x)| <= j
  {
    RankByCounting(SortedValues(m), j, x);
  }

  lemma BelowOrAbove(m: Row, x: nat)
    ensures |Below(m, x + 1)| + |Above(m, x)| == |m|
  {
    var low, high := Below(m, x + 1), Above(m, x);
    assert low + high == m.Keys;
    assert low * high == {};
    assert |m| == |m.Keys| == |low + high|;
  }

  lemma AtMostByCounting(m: Row, j: nat, x: nat)
    requires j < |m|
    ensures SortedValues(m)[j] <= x <==> |Above(m, x)| <= |m| - 1 - j
  {
    RankByCounting(SortedValues(m), j, x + 1);
    BelowOrAbove(m, x);
  }

  /** Raising entries raises every order statistic. */
  lemma PointwiseDomination(low: Row, high: Row, j: nat)
    requires low.Keys == high.Keys && j < |low|
    requires forall r: ReplicaId :: r in low ==> low[r] <= high[r]
    ensures |low| == |high| && SortedValues(low)[j] <= SortedValues(high)[j]
  {
    var x := SortedValues(low)[j];
    assert |low.Keys| == |high.Keys|;
    AtLeastByCounting(low, j, x);
    AtLeastByCounting(high, j, x);
    SubsetSize(Below(high, x), Below(low, x));
  }

  lemma SubsetSize(a: set<ReplicaId>, b: set<ReplicaId>)
    requires a <= b
    ensures |a| <= |b|
  {
    assert b == a + (b - a);
  }

  /**
   The middle of a row is at least `x` when its entries below `x` come from two sets that together make up at
   most half of the row.
   */
  lemma MiddleAtLeast(m: Row, x: nat, excused: set<ReplicaId>, faulty: set<ReplicaId>)
    requires m != map[] && Below(m, x) <= excused + faulty && |excused| + |faulty| <= |m| / 2
    ensures SortedValues(m)[|m| / 2] >= x
  {
    AtLeastByCounting(m, |m| / 2, x);
    SubsetSize(Below(m, x), excused + faulty);
    UnionSize(excused, faulty);
  }

  lemma MiddleAtMost(m: Row, x: nat, excused: set<ReplicaId>, faulty: set<ReplicaId>)
    requires m != map[] && Above(m, x) <= excused + faulty && |excused| + |faulty| <= |m| - 1 - |m| / 2
    ensures SortedValues(m)[|m| / 2] <= x
  {
    AtMostByCounting(m, |m| / 2, x);
    SubsetSize(Above(m, x), excused + faulty);
    UnionSize(excused, faulty);
  }

  lemma UnionSize(a: set<ReplicaId>, b: set<ReplicaId>)
    ensures |a + b| <= |a| + |b|
  {
    assert a + b == a + (b - a);
    SubsetSize(b - a, b);
  }
}
