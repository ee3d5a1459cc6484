/** The k-nearest-neighbours vote both classifiers implement: distances to the
    training rows, the indices in distance order, the labels of the first k of
    them and the label `Counter.most_common` puts first. */
module Knn {
  import opened Wrappers
  import opened Metrics

  type Point = seq<real>

  datatype KnnError =
      /** `k` is not an integer (`TypeError`). */
    | KTypeError(message: string)
      /** `k` is not positive (`ValueError`). */
    | KValueError(message: string)
      /** The observations are read before `fit` stored any. */
    | NotFitted
      /** A training row and the observation differ in length. */
    | ShapeMismatch
      /** `most_common()` of no labels is empty, so `[0]` raises. */
    | NoNeighbours
      /** A neighbour's index is past the end of the labels. */
    | LabelMissing

  // ----- Distances -----

  /** The squared Euclidean distance, which orders rows as the distance does. */
  function SquaredDistance(a: Point, b: Point): (d: real)
    requires |a| == |b|
    ensures d >= 0.0
    ensures d == 0.0 <==> a == b
  {
    if |a| == 0 then 0.0
    else
      var x := a[0] - b[0];
      var rest := SquaredDistance(a[1..], b[1..]);
      assert a == [a[0]] + a[1..] && b == [b[0]] + b[1..];
      Square(x) + rest
  }

  /** `x * x`, with its sign spelled out. */
  function Square(x: real): (r: real)
    ensures r >= 0.0
    ensures r == 0.0 <==> x == 0.0
  {
    Product(x, x)
  }

  /** Every training row has the observation's length. */
  predicate SameWidth(rows: seq<Point>, x: Point)
  {
    forall i :: 0 <= i < |rows| ==> |rows[i]| == |x|
  }

  function Distances(rows: seq<Point>, x: Point): (d: seq<real>)
    requires SameWidth(rows, x)
    ensures |d| == |rows|
  {
    seq(|rows|, i requires 0 <= i < |rows| => SquaredDistance(rows[i], x))
  }

  // ----- `np.argsort` -----

  /** `order` lists the indices of `dist` once each, nearest first. Equal
      distances may come in any order: argsort is not stable. */
  predicate ArgSorted(order: seq<nat>, dist: seq<real>)
  {
    && |order| == |dist|
    && (forall a :: 0 <= a < |order| ==> order[a] < |dist|)
    && (forall a, b :: 0 <= a < b < |order| ==> order[a] != order[b])
    && (forall a, b :: 0 <= a < b < |order| ==> dist[order[a]] <= dist[order[b]])
  }

  /** Where `i` goes among `order`: after every index no farther than it. */
  method InsertPosition(order: seq<nat>, dist: seq<real>, i: nat) returns (p: nat)
    requires i < |dist| && forall a :: 0 <= a < |order| ==> order[a] < |dist|
    requires forall a, b :: 0 <= a < b < |order| ==> dist[order[a]] <= dist[order[b]]
    ensures p <= |order|
    ensures forall a :: 0 <= a < p ==> dist[order[a]] <= dist[i]
    ensures forall a :: p <= a < |order| ==> dist[i] < dist[order[a]]
  {
    p := 0;
    while p < |order| && dist[order[p]] <= dist[i]
      invariant p <= |order|
      invariant forall a :: 0 <= a < p ==> dist[order[a]] <= dist[i]
    {
      p := p + 1;
    }
  }

  /** `np.argsort(dist)`, by insertion: every index, nearest first. */
  method ArgSort(dist: seq<real>) returns (order: seq<nat>)
    ensures ArgSorted(order, dist)
  {
    order := [];
    for i := 0 to |dist|
      invariant |order| == i
      invariant forall a :: 0 <= a < |order| ==> order[a] < i
      invariant forall a, b :: 0 <= a < b < |order| ==> order[a] != order[b]
      invariant forall a, b :: 0 <= a < b < |order| ==> dist[order[a]] <= dist[order[b]]
    {
      var p := InsertPosition(order, dist, i);
      order := order[..p] + [i] + order[p..];
    }
  }

  /** Every index appears in an argsort order. */
  lemma ArgSortedCovers(order: seq<nat>, dist: seq<real>, i: nat)
    requires ArgSorted(order, dist) && i < |dist|
    ensures i in order
  {
    if i !in order {
      Pigeonhole(order, |dist|, i);
    }
  }

  /** Distinct indices below `n` leaving out `i` are fewer than `n`. */
  lemma Pigeonhole(order: seq<nat>, n: nat, i: nat)
    requires i < n && i !in order
    requires forall a :: 0 <= a < |order| ==> order[a] < n
    requires forall a, b :: 0 <= a < b < |order| ==> order[a] != order[b]
    ensures |order| < n
  {
    var s := set a | 0 <= a < |order| :: order[a];
    DistinctCard(order);
    var range := RangeSet(n);
    assert s <= range - {i};
    SubsetCard(s, range - {i});
    assert |range - {i}| == n - 1 by {
      assert range == (range - {i}) + {i};
    }
  }

  lemma {:induction false} SubsetCard<T>(a: set<T>, b: set<T>)
    requires a <= b
    ensures |a| <= |b|
  {
    if a != {} {
      var x :| x in a;
      SubsetCard(a - {x}, b - {x});
      assert a == (a - {x}) + {x};
      assert b == (b - {x}) + {x};
    }
  }

  function RangeSet(n: nat): (s: set<nat>)
    ensures |s| == n
    ensures forall j: nat :: j in s <==> j < n
  {
    if n == 0 then {} else
      var s := RangeSet(n - 1);
      assert n - 1 !in s;
      s + {n - 1}
  }

  /** A sequence of distinct elements has as many elements as its set. */
  lemma {:induction false} DistinctCard(order: seq<nat>)
    requires forall a, b :: 0 <= a < b < |order| ==> order[a] != order[b]
    ensures |set a | 0 <= a < |order| :: order[a]| == |order|
  {
    if |order| > 0 {
      var init := order[..|order| - 1];
      assert forall a, b :: 0 <= a < b < |init| ==> init[a] != init[b];
      DistinctCard(init);
      var s := set a | 0 <= a < |init| :: init[a];
      assert (set a | 0 <= a < |order| :: order[a]) == s + {order[|order| - 1]};
      assert order[|order| - 1] !in s;
    }
  }

  // ----- The neighbours -----

  function Min(a: nat, b: nat): nat
  {
    if a <= b then a else b
  }

  /** `argsort(dist)[:k]`: `min(k, n)` distinct indices, nearest first, and no
      index left out is nearer than one taken. Equal distances come in either order. */
  predicate Nearest(neighbours: seq<nat>, dist: seq<real>, k: nat)
  {
    && |neighbours| == Min(k, |dist|)
    && (forall a :: 0 <= a < |neighbours| ==> neighbours[a] < |dist|)
    && (forall a, b :: 0 <= a < b < |neighbours| ==> neighbours[a] != neighbours[b])
    && (forall a, b :: 0 <= a < b < |neighbours| ==> dist[neighbours[a]] <= dist[neighbours[b]])
    && (forall a, j :: 0 <= a < |neighbours| && 0 <= j < |dist| && j !in neighbours ==> dist[neighbours[a]] <= dist[j])
  }

  /** The first `k` of an argsort order are the `k` nearest. */
  lemma PrefixNearest(order: seq<nat>, dist: seq<real>, k: nat)
    requires ArgSorted(order, dist)
    ensures Nearest(order[..Min(k, |dist|)], dist, k)
  {
    var m := Min(k, |dist|);
    var nb := order[..m];
    forall a, j | 0 <= a < |nb| && 0 <= j < |dist| && j !in nb
      ensures dist[nb[a]] <= dist[j]
    {
      ArgSortedCovers(order, dist, j);
      var b :| 0 <= b < |order| && order[b] == j;
    }
  }

  // ----- `Counter(labels).most_common()[0][0]` -----

  function Count<L(==)>(s: seq<L>, x: L): nat
  {
    if |s| == 0 then 0 else (if s[0] == x then 1 else 0) + Count(s[1..], x)
  }

  /** The position where `x` first occurs in `s`. */
  function FirstIndex<L(==)>(s: seq<L>, x: L): (i: nat)
    requires x in s
    ensures i < |s| && s[i] == x && x !in s[..i]
  {
    if s[0] == x then 0
    else
      var j := FirstIndex(s[1..], x);
      assert s[..j + 1] == [s[0]] + s[1..][..j];
      j + 1
  }

  /** `r` is what `most_common` puts first: a label of `s` with the largest
      count, the first of them to occur in `s` when counts tie. */
  predicate IsMostCommon<L(==)>(s: seq<L>, r: L)
  {
    && r in s
    && (forall i :: 0 <= i < |s| ==> Count(s, s[i]) <= Count(s, r))
    && (forall i :: 0 <= i < |s| && Count(s, s[i]) == Count(s, r) ==> FirstIndex(s, r) <= FirstIndex(s, s[i]))
  }

  /** The rule names one label: most common, first encountered among ties. */
  lemma MostCommonUnique<L>(s: seq<L>, r1: L, r2: L)
    requires IsMostCommon(s, r1) && IsMostCommon(s, r2)
    ensures r1 == r2
  {
    var i1, i2 := FirstIndex(s, r1), FirstIndex(s, r2);
    assert Count(s, s[i1]) <= Count(s, r2) && Count(s, s[i2]) <= Count(s, r1);
    assert FirstIndex(s, r1) <= FirstIndex(s, s[i2]);
    assert FirstIndex(s, r2) <= FirstIndex(s, s[i1]);
  }

  lemma FirstIndexBefore<L>(s: seq<L>, x: L, i: nat)
    requires i <= |s| && x in s[..i]
    ensures FirstIndex(s, x) < i
  {
    var j :| 0 <= j < i && s[..i][j] == x;
    assert s[j] == x;
  }

  lemma FirstIndexAt<L>(s: seq<L>, i: nat)
    requires i < |s|
    ensures FirstIndex(s, s[i]) <= i
  {

  }

  /** The label `most_common` puts first: the counts are taken in order of
      first occurrence and the first largest count wins. */
  method MostCommon<L(==)>(s: seq<L>) returns (r: L)
    requires |s| > 0
    ensures IsMostCommon(s, r)
  {
    r := s[0];
    for i := 0 to |s|
      invariant r == s[0] || r in s[..i]
      invariant forall j :: 0 <= j < i ==> Count(s, s[j]) <= Count(s, r)
      invariant forall j :: 0 <= j < i && Count(s, s[j]) == Count(s, r) ==> FirstIndex(s, r) <= FirstIndex(s, s[j])
    {
      assert r in s[..i + 1] by {
        if r != s[0] {
          assert s[..i + 1][..i] == s[..i];
        } else {
          assert s[..i + 1][0] == s[0];
        }
      }
      if Count(s, s[i]) > Count(s, r) {
        r := s[i];
      } else if Count(s, s[i]) == Count(s, r) {
        FirstIndexAt(s, i);
        if FirstIndex(s, s[i]) == i {
          FirstIndexBefore(s, r, i + 1);
          if FirstIndex(s, r) == i {
            assert r == s[i];
          }
        } else {
          var j := FirstIndex(s, s[i]);
          assert s[j] == s[i];
        }
      }
      assert s[..i + 1][i] == s[i];
    }
    assert s[..|s|] == s;
  }

  // ----- `_predict_single` -----

  /** Every index is below `n`. */
  predicate Below(indices: seq<nat>, n: nat)
  {
    forall a :: 0 <= a < |indices| ==> indices[a] < n
  }

  /** The labels of the given neighbours: `[ground_truth[i] for i in neighbours]`. */
  function LabelsOf<L>(labels: seq<L>, neighbours: seq<nat>): (r: seq<L>)
    requires Below(neighbours, |labels|)
    ensures |r| == |neighbours|
  {
    seq(|neighbours|, a requires 0 <= a < |neighbours| => labels[neighbours[a]])
  }

  /** `prediction` is a label the vote can give for `x`: the most common label
      among some choice of the `k` nearest training rows. */
  ghost predicate IsPrediction<L>(rows: seq<Point>, labels: seq<L>, k: nat, x: Point, prediction: L)
  {
    && SameWidth(rows, x)
    && exists neighbours: seq<nat> ::
         && Nearest(neighbours, Distances(rows, x), k)
         && Below(neighbours, |labels|)
         && IsMostCommon(LabelsOf(labels, neighbours), prediction)
  }

  /** A prediction is the label of a training row. */
  lemma PredictionIsLabel<L>(rows: seq<Point>, labels: seq<L>, k: nat, x: Point, prediction: L)
    requires IsPrediction(rows, labels, k, x, prediction)
    ensures prediction in labels
  {
    var neighbours: seq<nat> :| Nearest(neighbours, Distances(rows, x), k)
      && Below(neighbours, |labels|)
      && IsMostCommon(LabelsOf(labels, neighbours), prediction);
    var ls := LabelsOf(labels, neighbours);
    var a :| 0 <= a < |ls| && ls[a] == prediction;
    assert labels[neighbours[a]] == prediction;
  }

  /** With k = 1 the prediction is the label of a nearest row. */
  lemma SingleNeighbour<L>(rows: seq<Point>, labels: seq<L>, x: Point, prediction: L)
    requires IsPrediction(rows, labels, 1, x, prediction)
    ensures exists i ::
      && 0 <= i < |rows| && i < |labels| && labels[i] == prediction
      && forall j :: 0 <= j < |rows| ==> SquaredDistance(rows[i], x) <= SquaredDistance(rows[j], x)
  {
    var dist := Distances(rows, x);
    var neighbours: seq<nat> :| Nearest(neighbours, dist, 1)
      && Below(neighbours, |labels|)
      && IsMostCommon(LabelsOf(labels, neighbours), prediction);
    var ls := LabelsOf(labels, neighbours);
    assert |ls| == 1 && ls[0] == prediction;
    var i := neighbours[0];
    forall j | 0 <= j < |rows|
      ensures SquaredDistance(rows[i], x) <= SquaredDistance(rows[j], x)
    {
      if j != i {
        assert j !in neighbours;
        assert dist[i] <= dist[j];
      }
    }
  }

  /** `_predict_single(x)` over fitted rows and labels: the distances, the
      argsort, the labels of the first `k` indices and the most common of them. */
  method PredictSingle<L(==)>(rows: seq<Point>, labels: seq<L>, k: nat, x: Point) returns (r: Result<L, KnnError>)
    ensures !SameWidth(rows, x) ==> r == Failure(ShapeMismatch)
    ensures SameWidth(rows, x) && (|rows| == 0 || k == 0) ==> r == Failure(NoNeighbours)
    ensures r == Failure(LabelMissing) ==> |labels| < |rows|
    ensures SameWidth(rows, x) && |rows| <= |labels| && |rows| > 0 && k > 0 ==> r.Success?
    ensures r.Success? ==> IsPrediction(rows, labels, k, x, r.value)
  {
    if !SameWidth(rows, x) {
      return Failure(ShapeMismatch);
    }
    var dist := Distances(rows, x);
    var order := ArgSort(dist);
    var m := Min(k, |order|);
    var neighbours := order[..m];
    PrefixNearest(order, dist, k);
    if !Below(neighbours, |labels|) {
      return Failure(LabelMissing);
    }
    var nearestLabels := LabelsOf(labels, neighbours);
    if |nearestLabels| == 0 {
      return Failure(NoNeighbours);
    }
    var prediction := MostCommon(nearestLabels);
    assert Nearest(neighbours, Distances(rows, x), k) && Below(neighbours, |labels|)
      && IsMostCommon(LabelsOf(labels, neighbours), prediction);
    return Success(prediction);
  }

  /** `predict(observations)`: one prediction per observation, in order; the
      first observation that fails makes the whole call fail. */
  method Predict<L(==)>(rows: seq<Point>, labels: seq<L>, k: nat, xs: seq<Point>) returns (r: Result<seq<L>, KnnError>)
    ensures r.Success? ==> |r.value| == |xs|
    ensures r.Success? ==> forall i :: 0 <= i < |xs| ==> IsPrediction(rows, labels, k, xs[i], r.value[i])
    ensures (forall i :: 0 <= i < |xs| ==> SameWidth(rows, xs[i])) && 0 < |rows| <= |labels| && k > 0 ==> r.Success?
  {
    var predictions: seq<L> := [];
    for i := 0 to |xs|
      invariant |predictions| == i
      invariant forall j :: 0 <= j < i ==> IsPrediction(rows, labels, k, xs[j], predictions[j])
    {
      var p := PredictSingle(rows, labels, k, xs[i]);
      if p.Failure? {
        return Failure(p.error);
      }
      predictions := predictions + [p.value];
    }
    return Success(predictions);
  }
}
