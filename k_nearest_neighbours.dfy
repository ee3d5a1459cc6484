/** The `KNearestNeighbors` model that validates `k` and keeps its training
    data in its parameter dictionary. */
module KNearestNeighbours {
  import opened Wrappers
  import opened Dicts
  import opened PyValues
  import opened Knn

  const DefaultK := PyInt(3)
  const ObservationsKey := "observations"
  const GroundTruthKey := "ground_truth"

  /** `validate_k`: a value that is not an `int` raises `TypeError`, an int
      below 1 raises `ValueError`; any other value is the number of neighbours. */
  function ValidateK(v: PyValue): (r: Result<nat, KnnError>)
    ensures !IsInt(v) <==> r == Failure(KTypeError("k must be an integer"))
    ensures IsInt(v) && IntValue(v) < 1 <==> r == Failure(KValueError("k must be > 0"))
    ensures r.Success? ==> IsInt(v) && r.value == IntValue(v) >= 1
  {
    if !IsInt(v) then Failure(KTypeError("k must be an integer"))
    else if IntValue(v) < 1 then Failure(KValueError("k must be > 0"))
    else Success(IntValue(v))
  }

  /** The default is valid, `True` counts as the integer 1, and a float is
      refused even when it is whole. */
  lemma ValidateKCases()
    ensures ValidateK(DefaultK) == Success(3)
    ensures ValidateK(PyBool(true)) == Success(1)
    ensures ValidateK(PyBool(false)).Failure? && ValidateK(PyBool(false)).error.KValueError?
    ensures ValidateK(PyFloat(3.0)).Failure? && ValidateK(PyFloat(3.0)).error.KTypeError?
  {
  }

  /** A stored parameter: the training rows or the training labels. */
  datatype Parameter<L> = Rows(rows: seq<Point>) | Labels(labels: seq<L>)

  class KNearestNeighbors<L(==)> {
    const k: nat
    /** `_parameters`. */
    var parameters: Dict<string, Parameter<L>>

    constructor Init(k: nat)
      requires k >= 1
      ensures this.k == k && parameters == []
    {
      this.k := k;
      parameters := [];
    }

    /** `KNearestNeighbors(k=…)`: the model exists only for a valid `k`. */
    static method New(k: PyValue) returns (r: Result<KNearestNeighbors<L>, KnnError>)
      ensures ValidateK(k).Failure? ==> r == Failure(ValidateK(k).error)
      ensures ValidateK(k).Success? ==> r.Success? && fresh(r.value) && r.value.k == ValidateK(k).value
      ensures r.Success? ==> r.value.parameters == []
    {
      var valid := ValidateK(k);
      if valid.Failure? {
        return Failure(valid.error);
      }
      var model := new KNearestNeighbors<L>.Init(valid.value);
      return Success(model);
    }

    /** The stored training data, when both parameters are there. */
    function Training(): Option<(seq<Point>, seq<L>)>
      reads this
    {
      var rows: Option<Parameter<L>> := Get(parameters, ObservationsKey);
      var labels: Option<Parameter<L>> := Get(parameters, GroundTruthKey);
      if rows.Some? && rows.value.Rows? && labels.Some? && labels.value.Labels? then
        Some((rows.value.rows, labels.value.labels))
      else None
    }

    /** `fit`: the parameters become exactly the training rows under
        "observations" and the labels under "ground_truth". */
    method Fit(observations: seq<Point>, groundTruth: seq<L>)
      modifies this
      ensures Keys(parameters) == [ObservationsKey, GroundTruthKey]
      ensures Get(parameters, ObservationsKey) == Some(Rows(observations))
      ensures Get(parameters, GroundTruthKey) == Some(Labels(groundTruth))
      ensures Training() == Some((observations, groundTruth))
    {
      parameters := [(ObservationsKey, Rows(observations)), (GroundTruthKey, Labels(groundTruth))];
    }

    /** `predict`: one vote per observation, in order, over the stored
        training data; with nothing to predict nothing is read. */
    method Predict(xs: seq<Point>) returns (r: Result<seq<L>, KnnError>)
      requires k >= 1
      ensures |xs| == 0 ==> r == Success([])
      ensures |xs| > 0 && Training().None? ==> r == Failure(NotFitted)
      ensures r.Success? ==> |r.value| == |xs|
      ensures r.Success? && |xs| > 0 ==>
        && Training().Some?
        && forall i :: 0 <= i < |xs| ==> IsPrediction(Training().value.0, Training().value.1, k, xs[i], r.value[i])
      ensures
        && Training().Some? && 0 < |Training().value.0| <= |Training().value.1|
        && (forall i :: 0 <= i < |xs| ==> SameWidth(Training().value.0, xs[i]))
        ==> r.Success?
    {
      if |xs| == 0 {
        return Success([]);
      }
      var training := Training();
      if training.None? {
        return Failure(NotFitted);
      }
      r := Knn.Predict(training.value.0, training.value.1, k, xs);
    }
  }
}
