/** The `KNearestNeighbors` classifier that keeps its training data in two
    fields and checks `k` in its constructor. */
module ClassificationKnn {
  import opened Wrappers
  import opened Knn

  const Name := "KNN"
  const ModelType := "classification"
  const DefaultK := 3

  class KNearestNeighbors<L(==)> {
    const k: nat
    var observations: Option<seq<Point>>
    var groundTruth: Option<seq<L>>

    constructor Init(k: nat)
      requires k > 0
      ensures this.k == k && observations == None && groundTruth == None
    {
      this.k := k;
      observations, groundTruth := None, None;
    }

    /** `KNearestNeighbors(k)`: `k <= 0` raises `ValueError`; the classifier
        starts with no training data. */
    static method New(k: int) returns (r: Result<KNearestNeighbors<L>, KnnError>)
      ensures r.Failure? <==> k <= 0
      ensures r.Failure? ==> r.error == KValueError("k must be greater than 0")
      ensures r.Success? ==> fresh(r.value) && r.value.k == k
      ensures r.Success? ==> r.value.observations == None && r.value.groundTruth == None
    {
      if k <= 0 {
        return Failure(KValueError("k must be greater than 0"));
      }
      var knn := new KNearestNeighbors<L>.Init(k);
      return Success(knn);
    }

    /** `fit`: the training data is stored as given. */
    method Fit(observations: seq<Point>, groundTruth: seq<L>)
      modifies this
      ensures this.observations == Some(observations) && this.groundTruth == Some(groundTruth)
    {
      this.observations := Some(observations);
      this.groundTruth := Some(groundTruth);
    }

    /** `predict`: one vote per observation, in order, over exactly the stored
        training data. With nothing to predict nothing is read; otherwise an
        unfitted classifier fails. */
    method Predict(xs: seq<Point>) returns (r: Result<seq<L>, KnnError>)
      requires k > 0
      ensures |xs| == 0 ==> r == Success([])
      ensures |xs| > 0 && (observations.None? || groundTruth.None?) ==> r == Failure(NotFitted)
      ensures r.Success? ==> |r.value| == |xs|
      ensures r.Success? && |xs| > 0 ==>
        && observations.Some? && groundTruth.Some?
        && forall i :: 0 <= i < |xs| ==> IsPrediction(observations.value, groundTruth.value, k, xs[i], r.value[i])
      ensures
        && observations.Some? && groundTruth.Some? && 0 < |observations.value| <= |groundTruth.value|
        && (forall i :: 0 <= i < |xs| ==> SameWidth(observations.value, xs[i]))
        ==> r.Success?
    {
      if |xs| == 0 {
        return Success([]);
      }
      if observations.None? || groundTruth.None? {
        return Failure(NotFitted);
      }
      r := Knn.Predict(observations.value, groundTruth.value, k, xs);
    }
  }
}
