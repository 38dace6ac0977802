/**
 * The k-nearest-neighbour classifier of src/clusters/knn.rs. For every query
 * row, `predict` lists (distance, label) for each training row, sorts the list
 * stably by distance, counts labels among the first k items in a hash map and
 * answers a label with the largest count.
 */
module Knn {
  import opened Outcomes
  import opened Matrices

  /** A training row as seen from one query: squared distance and label. */
  datatype NeighborhoodItem = NeighborhoodItem(dist: real, category: real)

  /** The list `predict` builds for query row r: one item per training row, in training order. */
  function Neighborhood(train: Matrix, labels: Matrix, q: Matrix, r: nat): seq<NeighborhoodItem>
    requires r < q.nrows && train.ncols == q.ncols && 0 < labels.ncols && train.nrows <= labels.nrows
  {
    seq(train.nrows, i requires 0 <= i < train.nrows =>
      NeighborhoodItem(RowSqDist(train, i, q, r), At(labels, i, 0)))
  }

  // ---------------------------------------------------------------- the stable sort

  predicate SortedByDist(s: seq<NeighborhoodItem>) {
    forall i, j :: 0 <= i < j < |s| ==> s[i].dist <= s[j].dist
  }

  /** The items of s at distance d, in their order in s. */
  function AtDist(s: seq<NeighborhoodItem>, d: real): seq<NeighborhoodItem> {
    if s == [] then [] else (if s[0].dist == d then [s[0]] else []) + AtDist(s[1..], d)
  }

  /** Puts item before the first element of s that is not strictly nearer. */
  function Insert(item: NeighborhoodItem, s: seq<NeighborhoodItem>): (r: seq<NeighborhoodItem>)
    ensures |r| == |s| + 1
  {
    if s == [] || item.dist <= s[0].dist then [item] + s else [s[0]] + Insert(item, s[1..])
  }

  /** `sort_by` on the distances: a stable sort, written as an insertion sort. */
  function SortByDist(s: seq<NeighborhoodItem>): (r: seq<NeighborhoodItem>)
    ensures |r| == |s|
  {
    if s == [] then [] else Insert(s[0], SortByDist(s[1..]))
  }

  lemma {:induction false} InsertPermutes(item: NeighborhoodItem, s: seq<NeighborhoodItem>)
    ensures multiset(Insert(item, s)) == multiset(s) + multiset{item}
  {
    if s != [] && item.dist > s[0].dist {
      InsertPermutes(item, s[1..]);
      assert s == [s[0]] + s[1..];
    }
  }

  lemma {:induction false} InsertKeepsSorted(item: NeighborhoodItem, s: seq<NeighborhoodItem>)
    requires SortedByDist(s)
    ensures Insert(item, s)[0] == item || (s != [] && Insert(item, s)[0] == s[0])
    ensures SortedByDist(Insert(item, s))
  {
    if s != [] && item.dist > s[0].dist {
      InsertKeepsSorted(item, s[1..]);
      assert Insert(item, s) == [s[0]] + Insert(item, s[1..]);
    }
  }

  lemma {:induction false} InsertAtDist(item: NeighborhoodItem, s: seq<NeighborhoodItem>, d: real)
    ensures AtDist(Insert(item, s), d) == (if item.dist == d then [item] else []) + AtDist(s, d)
  {
    if s == [] || item.dist <= s[0].dist {
      assert Insert(item, s)[1..] == s;
    } else {
      var rest := Insert(item, s[1..]);
      InsertAtDist(item, s[1..], d);
      assert Insert(item, s)[1..] == rest;
    }
  }

  /** The sort returns its input sorted by distance, as a permutation, keeping the
      input order among items of equal distance. */
  lemma {:induction false} SortByDistIsStableSort(s: seq<NeighborhoodItem>)
    ensures SortedByDist(SortByDist(s))
    ensures multiset(SortByDist(s)) == multiset(s)
    ensures forall d :: AtDist(SortByDist(s), d) == AtDist(s, d)
  {
    if s != [] {
      SortByDistIsStableSort(s[1..]);
      InsertPermutes(s[0], SortByDist(s[1..]));
      InsertKeepsSorted(s[0], SortByDist(s[1..]));
      assert s == [s[0]] + s[1..];
      forall d
        ensures AtDist(SortByDist(s), d) == AtDist(s, d)
      {
        InsertAtDist(s[0], SortByDist(s[1..]), d);
      }
    }
  }

  /** Position of the earliest item at the smallest distance. */
  function FirstNearest(s: seq<NeighborhoodItem>): (p: nat)
    requires s != []
    ensures p < |s|
    ensures forall i :: 0 <= i < |s| ==> s[p].dist <= s[i].dist
    ensures forall i :: 0 <= i < p ==> s[p].dist < s[i].dist
  {
    if |s| == 1 then 0
    else
      var j := 1 + FirstNearest(s[1..]);
      if s[0].dist <= s[j].dist then 0 else j
  }

  /** The sort puts first the earliest item at the smallest distance. */
  lemma {:induction false} SortedHeadIsFirstNearest(s: seq<NeighborhoodItem>)
    requires s != []
    ensures SortByDist(s)[0] == s[FirstNearest(s)]
  {
    if |s| > 1 {
      SortedHeadIsFirstNearest(s[1..]);
    }
  }

  // ---------------------------------------------------------------- the vote

  /** How many items carry label. */
  function Occurrences(s: seq<NeighborhoodItem>, tag: real): nat {
    if s == [] then 0
    else Occurrences(s[..|s| - 1], tag) + if s[|s| - 1].category == tag then 1 else 0
  }

  /** label is carried by some item, and no label by more items. */
  ghost predicate IsMajority(s: seq<NeighborhoodItem>, tag: real) {
    0 < Occurrences(s, tag) && forall l :: Occurrences(s, l) <= Occurrences(s, tag)
  }

  /** A label counted at all is the label of one of the items. */
  lemma {:induction false} CountedLabelIsPresent(s: seq<NeighborhoodItem>, tag: real)
    requires 0 < Occurrences(s, tag)
    ensures exists i :: 0 <= i < |s| && s[i].category == tag
  {
    if s[|s| - 1].category != tag {
      CountedLabelIsPresent(s[..|s| - 1], tag);
      var i :| 0 <= i < |s| - 1 && s[..|s| - 1][i].category == tag;
      assert s[i].category == tag;
    }
  }

  /** A set that is not empty has a member. This is no property of the classifier: it only
      gives the verifier the witness that the `:|` choice in `MaxByCount` needs. */
  lemma HasMember(s: set<real>)
    requires s != {}
    ensures exists x :: x in s
  {
    if forall x :: x !in s {
      assert false;
    }
  }

  /** `max_by_key` on the counts: a key with the largest count, None for an empty map.
      The hash map's iteration order is left open; among equal counts the key visited
      last wins. */
  method MaxByCount(counts: map<real, nat>) returns (best: Option<real>)
    ensures best.None? <==> counts.Keys == {}
    ensures best.Some? ==> best.value in counts
    ensures best.Some? ==> forall l :: l in counts ==> counts[l] <= counts[best.value]
  {
    var rest := counts.Keys;
    best := None;
    while rest != {}
      invariant rest <= counts.Keys
      invariant best.None? ==> rest == counts.Keys
      invariant best.Some? ==> best.value in counts
      invariant best.Some? ==> forall l :: l in counts && l !in rest ==> counts[l] <= counts[best.value]
      decreases rest
    {
      HasMember(rest);
      var candidate :| candidate in rest;
      if best.None? || counts[candidate] >= counts[best.value] {
        best := Some(candidate);
      }
      rest := rest - {candidate};
    }
  }

  /** The tally and `max_by_key` over the first k sorted items. Panics when k exceeds the
      list (indexing) or is 0 (`unwrap` on an empty map). The hash map's iteration order is
      left open: any maximal tag may come out. */
  method Vote(sorted: seq<NeighborhoodItem>, k: nat) returns (res: Result<real>)
    ensures res.Panic? <==> k == 0 || |sorted| < k
    ensures res.Ok? ==> IsMajority(sorted[..k], res.value)
  {
    var counts: map<real, nat> := map[];
    for ii := 0 to k
      invariant ii <= |sorted|
      invariant ii == 0 ==> counts == map[]
      invariant 0 < ii ==> sorted[0].category in counts
      invariant forall l :: l in counts ==> 0 < counts[l] == Occurrences(sorted[..ii], l)
      invariant forall l :: l !in counts ==> Occurrences(sorted[..ii], l) == 0
    {
      if ii >= |sorted| {
        return Panic(IndexOutOfBounds);
      }
      var key := sorted[ii].category;
      counts := counts[key := (if key in counts then counts[key] else 0) + 1];
      assert sorted[..ii + 1][..ii] == sorted[..ii];
    }
    var best := MaxByCount(counts);
    if best.None? {
      return Panic(UnwrapFailed);
    }
    assert sorted[..k][..k] == sorted[..k];
    return Ok(best.value);
  }

  // ---------------------------------------------------------------- the classifier

  /** label is a possible answer of k-NN for query row r of q. */
  ghost predicate IsKnnLabel(train: Matrix, labels: Matrix, k: nat, q: Matrix, r: nat, tag: real) {
    && r < q.nrows && train.ncols == q.ncols && 0 < labels.ncols && train.nrows <= labels.nrows
    && k <= train.nrows
    && IsMajority(SortByDist(Neighborhood(train, labels, q, r))[..k], tag)
  }

  /** With one neighbour, the answer is the label of the earliest training row at minimal distance. */
  lemma OneNeighborIsNearest(train: Matrix, labels: Matrix, q: Matrix, r: nat, tag: real)
    requires IsKnnLabel(train, labels, 1, q, r, tag)
    ensures exists p ::
      && 0 <= p < train.nrows && tag == At(labels, p, 0)
      && (forall i :: 0 <= i < train.nrows ==> RowSqDist(train, p, q, r) <= RowSqDist(train, i, q, r))
      && (forall i :: 0 <= i < p ==> RowSqDist(train, p, q, r) < RowSqDist(train, i, q, r))
  {
    var items := Neighborhood(train, labels, q, r);
    SortedHeadIsFirstNearest(items);
    var p := FirstNearest(items);
    var first := SortByDist(items)[..1];
    assert first[..0] == [];
    assert Occurrences(first, tag) == if first[0].category == tag then 1 else 0;
    assert items[p].category == tag;
    assert forall i :: 0 <= i < train.nrows ==> items[i].dist == RowSqDist(train, i, q, r);
  }

  /** With one neighbour, a query equal to a training row gets the label of a training row
      at distance 0 (that row, unless an earlier row is at distance 0 too). */
  lemma ExactMatchGetsZeroDistanceLabel(train: Matrix, labels: Matrix, q: Matrix, r: nat, j: nat, tag: real)
    requires IsKnnLabel(train, labels, 1, q, r, tag)
    requires j < train.nrows && Row(train, j) == Row(q, r)
    ensures exists p :: 0 <= p < train.nrows && RowSqDist(train, p, q, r) == 0.0 && At(labels, p, 0) == tag
  {
    OneNeighborIsNearest(train, labels, q, r, tag);
    var p :| 0 <= p < train.nrows && tag == At(labels, p, 0)
      && (forall i :: 0 <= i < train.nrows ==> RowSqDist(train, p, q, r) <= RowSqDist(train, i, q, r));
    assert forall c :: 0 <= c < train.ncols ==> At(train, j, c) == Row(train, j)[c] == Row(q, r)[c] == At(q, r, c);
    RowSqDistFacts(train, j, q, r);
    RowSqDistFacts(train, p, q, r);
  }

  /** The classifier: training rows, their labels (column 0 of y) and k. */
  class KNN {
    var x: Matrix
    var y: Matrix
    var nNeighborhood: nat

    /** `KNN::new` keeps its arguments as they are. */
    constructor (x: Matrix, y: Matrix, nNeighborhood: nat)
      ensures this.x == x && this.y == y && this.nNeighborhood == nNeighborhood
    {
      this.x := x;
      this.y := y;
      this.nNeighborhood := nNeighborhood;
    }

    /** Whether `predict` on q panics; it does so on the first query row or never. */
    predicate Panics(q: Matrix)
      reads this
    {
      && 0 < q.nrows
      && ((0 < x.nrows && (x.ncols != q.ncols || y.ncols == 0 || y.nrows < x.nrows))
          || nNeighborhood == 0 || x.nrows < nNeighborhood)
    }

    /** `predict`: one label per query row, in query order, each a majority label among the
        query's nNeighborhood nearest training rows. The model is left as it was. */
    method Predict(q: Matrix) returns (res: Result<seq<real>>)
      ensures res.Panic? <==> Panics(q)
      ensures res.Ok? ==> |res.value| == q.nrows
      ensures res.Ok? ==> forall r :: 0 <= r < q.nrows ==> IsKnnLabel(x, y, nNeighborhood, q, r, res.value[r])
    {
      var yHat: seq<real> := [];
      for idx := 0 to q.nrows
        invariant |yHat| == idx
        invariant 0 < idx ==> !Panics(q)
        invariant forall r :: 0 <= r < idx ==> IsKnnLabel(x, y, nNeighborhood, q, r, yHat[r])
      {
        var list: seq<NeighborhoodItem> := [];
        for i := 0 to x.nrows
          invariant |list| == i
          invariant 0 < i ==> x.ncols == q.ncols && 0 < y.ncols && i <= y.nrows
          invariant forall j :: 0 <= j < i ==> list[j] == NeighborhoodItem(RowSqDist(x, j, q, idx), At(y, j, 0))
        {
          if x.ncols != q.ncols {
            return Panic(ShapeMismatch);
          }
          if y.ncols == 0 || y.nrows <= i {
            return Panic(IndexOutOfBounds);
          }
          list := list + [NeighborhoodItem(RowSqDist(x, i, q, idx), At(y, i, 0))];
        }
        var sorted := SortByDist(list);
        var tag :- Vote(sorted, nNeighborhood);
        assert list == Neighborhood(x, y, q, idx);
        yHat := yHat + [tag];
      }
      return Ok(yHat);
    }
  }
}
