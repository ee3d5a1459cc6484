/** `Pipeline`: preprocesses a dataset's features, splits the rows into a
    training prefix and a test suffix, fits the model on the first and
    evaluates the metrics on both. */
module Pipelines {
  import opened Wrappers
  import opened Bytes
  import opened Dicts
  import opened Features
  import opened Preprocessing
  import opened Artifacts

  /** What the model has been fitted on. */
  datatype ModelState = Unfitted | Fitted(observations: Matrix, groundTruth: Matrix)

  /** The model, left abstract: its type tag, what `predict` returns in a given
      state, and the bytes its artifact holds in a given state. */
  datatype Model = Model(modelType: string, predict: (ModelState, Matrix) -> Matrix, serialize: ModelState -> seq<byte>)

  /** A metric, left abstract: `evaluate(predictions, truth)`. */
  datatype Metric = Metric(name: string, evaluate: (Matrix, Matrix) -> real)

  /** `pickle.dumps` of a transformer's parameters and of the pipeline configuration. */
  datatype Pickler = Pickler(ofParams: Params -> seq<byte>, ofConfig: (seq<Feature>, Feature, real) -> seq<byte>)

  datatype PipelineError =
    | TypeMismatch(message: string)
    | PreprocessFailed(error: PreprocessError)
      /** `np.concatenate` of no vectors, or of vectors with different row counts. */
    | ConcatenateFailed

  /** What `execute` returns. */
  datatype Report = Report(trainMetrics: seq<(Metric, real)>, testMetrics: seq<(Metric, real)>, predictions: Matrix)

  const ClassificationType := "classification"
  const RegressionType := "regression"
  const ConfigName := "pipeline_config"
  const ModelPrefix := "pipeline_model"
  /** The fraction of rows that trains when no split is given. */
  const DefaultSplit: real := 0.8

  // ----- The construction-time check -----

  /** The two checks of the constructor. The second compares the target's type
      with "continuous", which no feature type is, so it never fails: a
      numerical target is accepted whatever the model type. */
  function CheckTypes(target: Feature, modelType: string): (r: Outcome<PipelineError>)
    ensures r.Fail? <==> target.featureType == Categorical && modelType != ClassificationType
  {
    if TypeName(target.featureType) == "categorical" && modelType != ClassificationType then
      Fail(TypeMismatch("Model type must be classification for categorical target feature"))
    else if TypeName(target.featureType) == "continuous" && modelType != RegressionType then
      Fail(TypeMismatch("Model type must be regression for continuous target feature"))
    else Pass
  }

  // ----- The split -----

  /** Python's `int(x)`: truncation toward zero. */
  function PyInt(x: real): int
  {
    if x >= 0.0 then x.Floor else -((-x).Floor)
  }

  /** The position a slice bound `k` stands for in a sequence of length `n`:
      a negative bound counts from the end, and bounds are clamped to `0..n`. */
  function SliceBound(k: int, n: nat): (b: nat)
    ensures b <= n
    ensures 0 <= k <= n ==> b == k
  {
    if k < 0 then (if n + k < 0 then 0 else n + k)
    else if k > n then n
    else k
  }

  /** Where `vector[:int(split * len(vector))]` ends. */
  function SplitIndex(split: real, n: nat): (k: nat)
    ensures k <= n
  {
    SliceBound(PyInt(split * n as real), n)
  }

  /** For a split between 0 and 1, the index is `⌊split·n⌋`: the largest k with
      k ≤ split·n. */
  lemma SplitIndexSpec(split: real, n: nat)
    requires 0.0 <= split <= 1.0
    ensures SplitIndex(split, n) as real <= split * n as real < SplitIndex(split, n) as real + 1.0
  {
    var x := split * n as real;
    ScaleBelow(split, n as real);
    assert PyInt(x) == x.Floor;
    assert 0 <= x.Floor <= n;
  }

  lemma ScaleBelow(a: real, b: real)
    requires 0.0 <= a <= 1.0 && 0.0 <= b
    ensures 0.0 <= a * b <= b
  {
    assert b - a * b == (1.0 - a) * b;
  }

  /** The training rows of a vector: `vector[:int(split * len(vector))]`. */
  function Head<T>(v: seq<T>, split: real): seq<T>
  {
    v[..SplitIndex(split, |v|)]
  }

  /** The test rows of a vector: `vector[int(split * len(vector)):]`. */
  function Tail<T>(v: seq<T>, split: real): seq<T>
  {
    v[SplitIndex(split, |v|)..]
  }

  /** The split is a partition: the first `k` rows train, the other `n - k`
      test, and together they are the vector again. */
  lemma HeadTail<T>(v: seq<T>, split: real)
    ensures Head(v, split) + Tail(v, split) == v
    ensures |Head(v, split)| == SplitIndex(split, |v|)
    ensures |Tail(v, split)| == |v| - SplitIndex(split, |v|)
  {
    assert v == v[..SplitIndex(split, |v|)] + v[SplitIndex(split, |v|)..];
  }

  function Heads(vectors: seq<Matrix>, split: real): (r: seq<Matrix>)
    ensures |r| == |vectors|
  {
    seq(|vectors|, i requires 0 <= i < |vectors| => Head(vectors[i], split))
  }

  function Tails(vectors: seq<Matrix>, split: real): (r: seq<Matrix>)
    ensures |r| == |vectors|
  {
    seq(|vectors|, i requires 0 <= i < |vectors| => Tail(vectors[i], split))
  }

  /** Every vector is its training rows followed by its test rows. */
  lemma HeadsTails(vectors: seq<Matrix>, split: real)
    ensures forall i :: 0 <= i < |vectors| ==> Heads(vectors, split)[i] + Tails(vectors, split)[i] == vectors[i]
  {
    forall i | 0 <= i < |vectors|
      ensures Heads(vectors, split)[i] + Tails(vectors, split)[i] == vectors[i]
    {
      HeadTail(vectors[i], split);
    }
  }

  // ----- `_compact_vectors` -----

  predicate SameRows(vectors: seq<Matrix>)
  {
    |vectors| > 0 && forall j :: 0 <= j < |vectors| ==> |vectors[j]| == |vectors[0]|
  }

  /** Row `i` of every vector, side by side. */
  function RowAt(vectors: seq<Matrix>, i: nat): Row
    requires forall j :: 0 <= j < |vectors| ==> i < |vectors[j]|
  {
    if |vectors| == 0 then [] else vectors[0][i] + RowAt(vectors[1..], i)
  }

  /** `np.concatenate(vectors, axis=1)`: one row per row of the vectors, each
      the concatenation of their rows; it raises for no vectors or for vectors
      with different row counts. */
  function Compact(vectors: seq<Matrix>): (r: Option<Matrix>)
    ensures r.Some? <==> SameRows(vectors)
    ensures r.Some? ==> |r.value| == |vectors[0]|
  {
    if !SameRows(vectors) then None
    else Some(seq(|vectors[0]|, i requires 0 <= i < |vectors[0]| => RowAt(vectors, i)))
  }

  /** Splitting vectors with the same row count gives training vectors with
      the same row count, and test vectors with the same row count. */
  lemma SplitSameRows(vectors: seq<Matrix>, split: real)
    requires SameRows(vectors)
    ensures SameRows(Heads(vectors, split)) && SameRows(Tails(vectors, split))
    ensures |Compact(Heads(vectors, split)).value| + |Compact(Tails(vectors, split)).value| == |vectors[0]|
  {
    HeadTail(vectors[0], split);
  }

  /** The data of each preprocessing result, in order. */
  function DataOf(results: seq<Processed>): seq<Matrix>
  {
    seq(|results|, i requires 0 <= i < |results| => results[i].data)
  }

  /** When `execute()` runs to the end, as `Pipeline.Execute` states: both
      preprocessing calls succeed, and
      the training parts of the input vectors have one row count, as do their
      test parts, so that both `np.concatenate` calls succeed. */
  predicate Executable(inputFeatures: seq<Feature>, targetFeature: Feature, raw: Table, ts: Transformers, split: real)
  {
    var target := Preprocessed([targetFeature], raw, ts);
    var inputs := Preprocessed(inputFeatures, raw, ts);
    && target.Success? && inputs.Success?
    && SameRows(Heads(DataOf(inputs.value), split)) && SameRows(Tails(DataOf(inputs.value), split))
  }

  /** On a dataset whose columns all have one length, `execute()` runs to the
      end exactly when the target's and the inputs' columns are present and
      there is at least one input feature. */
  lemma ExecutableSpec(inputFeatures: seq<Feature>, targetFeature: Feature, raw: Table, ts: Transformers, split: real, rows: nat)
    requires Rectangular(raw, rows)
    ensures Executable(inputFeatures, targetFeature, raw, ts, split) <==>
      AllPresent([targetFeature], raw) && AllPresent(inputFeatures, raw) && |inputFeatures| > 0
  {
    PreprocessedSpec([targetFeature], raw, ts, rows);
    PreprocessedSpec(inputFeatures, raw, ts, rows);
    if AllPresent(inputFeatures, raw) && |inputFeatures| > 0 {
      var results := Preprocessed(inputFeatures, raw, ts).value;
      var data := DataOf(results);
      forall j | 0 <= j < |data|
        ensures |data[j]| == rows
      {
        assert results[j] in results;
      }
      SplitSameRows(data, split);
    }
  }

  // ----- The evaluation -----

  /** One `(metric, value)` pair per metric, in the order of the metrics. */
  function Scores(metrics: seq<Metric>, predictions: Matrix, truth: Matrix): (r: seq<(Metric, real)>)
    ensures |r| == |metrics|
  {
    seq(|metrics|, i requires 0 <= i < |metrics| => (metrics[i], metrics[i].evaluate(predictions, truth)))
  }

  // ----- The registry of preprocessing records -----

  /** The records after registering each result under its feature name, in order. */
  function RegisterAll(records: Dict<string, Record>, results: seq<Processed>): Dict<string, Record>
  {
    if |results| == 0 then records
    else
      var last := results[|results| - 1];
      Set(RegisterAll(records, results[..|results| - 1]), last.name, last.record)
  }

  lemma {:induction false} RegisterAllUnique(records: Dict<string, Record>, results: seq<Processed>)
    requires UniqueKeys(records)
    ensures UniqueKeys(RegisterAll(records, results))
  {
    if |results| > 0 {
      var last := results[|results| - 1];
      RegisterAllUnique(records, results[..|results| - 1]);
      SetSpec(RegisterAll(records, results[..|results| - 1]), last.name, last.record);
    }
  }

  /** A name no result carries keeps the record it had. */
  lemma {:induction false} RegisterAllUntouched(records: Dict<string, Record>, results: seq<Processed>, n: string)
    requires UniqueKeys(records)
    requires forall i :: 0 <= i < |results| ==> results[i].name != n
    ensures Get(RegisterAll(records, results), n) == Get(records, n)
  {
    if |results| > 0 {
      var init := results[..|results| - 1];
      var last := results[|results| - 1];
      assert forall i :: 0 <= i < |init| ==> init[i] == results[i];
      RegisterAllUntouched(records, init, n);
      RegisterAllUnique(records, init);
      SetSpec(RegisterAll(records, init), last.name, last.record);
    }
  }

  /** A name some result carries maps to the record of the last such result:
      later registrations overwrite earlier ones. */
  lemma {:induction false} RegisterAllLast(records: Dict<string, Record>, results: seq<Processed>, i: nat)
    requires UniqueKeys(records)
    requires i < |results| && forall j :: i < j < |results| ==> results[j].name != results[i].name
    ensures Get(RegisterAll(records, results), results[i].name) == Some(results[i].record)
  {
    var init := results[..|results| - 1];
    var last := results[|results| - 1];
    RegisterAllUnique(records, init);
    SetSpec(RegisterAll(records, init), last.name, last.record);
    if i < |init| {
      assert init[i] == results[i];
      assert last.name != results[i].name;
      assert forall j :: i < j < |init| ==> init[j] == results[j];
      RegisterAllLast(records, init, i);
    }
  }

  /** The records hold the target's record unless an input has its name, and
      for each input name the record of the last input with that name. */
  ghost predicate RegisteredAfter(after: Dict<string, Record>, target: Processed, inputs: seq<Processed>)
  {
    && UniqueKeys(after)
    && ((forall i :: 0 <= i < |inputs| ==> inputs[i].name != target.name) ==>
          Get(after, target.name) == Some(target.record))
    && forall i :: 0 <= i < |inputs| && (forall j :: i < j < |inputs| ==> inputs[j].name != inputs[i].name) ==>
          Get(after, inputs[i].name) == Some(inputs[i].record)
  }

  /** Registering one target result and then the input results: the target's
      record survives unless an input has its name, and each input name maps to
      the record of its last input. */
  lemma RegisterAfter(before: Dict<string, Record>, targets: seq<Processed>, inputs: seq<Processed>, after: Dict<string, Record>)
    requires UniqueKeys(before) && |targets| == 1
    requires after == RegisterAll(RegisterAll(before, targets), inputs)
    ensures RegisteredAfter(after, targets[0], inputs)
  {
    var registered := RegisterAll(before, targets);
    RegisterAllUnique(before, targets);
    RegisterAllUnique(registered, inputs);
    RegisterAllLast(before, targets, 0);
    if forall i :: 0 <= i < |inputs| ==> inputs[i].name != targets[0].name {
      RegisterAllUntouched(registered, inputs, targets[0].name);
    }
    forall i | 0 <= i < |inputs| && (forall j :: i < j < |inputs| ==> inputs[j].name != inputs[i].name)
      ensures Get(RegisterAll(registered, inputs), inputs[i].name) == Some(inputs[i].record)
    {
      RegisterAllLast(registered, inputs, i);
    }
  }

  // ----- The exported artifacts -----

  /** A record whose transformer the `artifacts` property exports. */
  predicate IsTransform(r: Record)
  {
    r.tag == OneHotTag || r.tag == ScalerTag
  }

  /** The records the `artifacts` property exports, in insertion order. */
  function Transforms(records: Dict<string, Record>): (t: Dict<string, Record>)
    ensures |t| <= |records|
    ensures forall x :: x in t <==> x in records && IsTransform(x.1)
  {
    if |records| == 0 then []
    else
      var init := records[..|records| - 1];
      var last := records[|records| - 1];
      assert records == init + [last];
      Transforms(init) + if IsTransform(last.1) then [last] else []
  }

  /** `Artifact(name=name, data=data)`: every other field at its default. */
  function PlainArtifact(name: string, data: seq<byte>): (a: ArtifactValue)
    ensures a.name == name && a.data == data
    ensures a.artifactType == DefaultType && a.version == DefaultVersion
    ensures a.assetPath == "" && a.metadata == [] && a.tags == []
  {
    ArtifactValue(DefaultType, name, data, DefaultVersion, "", [], [])
  }

  /** Every record holds exactly one tag. */
  lemma TagExclusive(r: Record)
    ensures !(r.tag == OneHotTag && r.tag == ScalerTag)
  {
    assert OneHotTag[0] != ScalerTag[0];
  }

  /** `arts` holds one plain artifact per record of `t`, pickled, in order. */
  ghost predicate ExportedAs(arts: seq<ArtifactValue>, t: Dict<string, Record>, pickler: Pickler)
  {
    |arts| == |t| && forall j :: 0 <= j < |t| ==> arts[j] == PlainArtifact(t[j].0, pickler.ofParams(t[j].1.params))
  }

  /** One more record exports one more artifact exactly when it is a transform. */
  lemma ExportStep(arts: seq<ArtifactValue>, items: Dict<string, Record>, i: nat, pickler: Pickler)
    requires i < |items| && ExportedAs(arts, Transforms(items[..i]), pickler)
    ensures IsTransform(items[i].1) ==>
      ExportedAs(arts + [PlainArtifact(items[i].0, pickler.ofParams(items[i].1.params))], Transforms(items[..i + 1]), pickler)
    ensures !IsTransform(items[i].1) ==> ExportedAs(arts, Transforms(items[..i + 1]), pickler)
  {
    assert items[..i + 1][..i] == items[..i];
  }

  // ----- The pipeline -----

  class Pipeline {
    const metrics: seq<Metric>
    /** The dataset, as the table it reads as. */
    const dataset: Table
    const model: Model
    const inputFeatures: seq<Feature>
    const targetFeature: Feature
    const split: real
    const transformers: Transformers
    const pickler: Pickler

    /** The fitted state of `model`, which `fit` replaces. */
    var modelState: ModelState
    /** `_artifacts`: the preprocessing record registered for each feature name. */
    var records: Dict<string, Record>
    var outputVector: Matrix
    var inputVectors: seq<Matrix>
    var trainX: seq<Matrix>
    var testX: seq<Matrix>
    var trainY: Matrix
    var testY: Matrix
    var metricsResults: seq<(Metric, real)>
    var predictions: Matrix
    /** How often `fit` was called, and the observations of each `predict` call. */
    ghost var fits: nat
    ghost var predictCalls: seq<Matrix>

    ghost predicate Valid()
      reads this
    {
      UniqueKeys(records)
    }

    constructor Init(metrics: seq<Metric>, dataset: Table, model: Model, inputFeatures: seq<Feature>,
                     targetFeature: Feature, split: real, transformers: Transformers, pickler: Pickler)
      ensures Valid()
      ensures this.metrics == metrics && this.dataset == dataset && this.model == model
      ensures this.inputFeatures == inputFeatures && this.targetFeature == targetFeature && this.split == split
      ensures this.transformers == transformers && this.pickler == pickler
      ensures modelState == Unfitted && records == [] && fits == 0 && predictCalls == []
    {
      this.metrics, this.dataset, this.model := metrics, dataset, model;
      this.inputFeatures, this.targetFeature, this.split := inputFeatures, targetFeature, split;
      this.transformers, this.pickler := transformers, pickler;
      modelState, records := Unfitted, [];
      outputVector, inputVectors := [], [];
      trainX, testX, trainY, testY := [], [], [], [];
      metricsResults, predictions := [], [];
      fits, predictCalls := 0, [];
    }

    /** `Pipeline(...)`: it raises when a categorical target meets a model that
        is not a classifier, and accepts every other combination. */
    static method Create(metrics: seq<Metric>, dataset: Table, model: Model, inputFeatures: seq<Feature>,
                         targetFeature: Feature, transformers: Transformers, pickler: Pickler,
                         split: real := DefaultSplit)
      returns (r: Result<Pipeline, PipelineError>)
      ensures r.Failure? <==> targetFeature.featureType == Categorical && model.modelType != ClassificationType
      ensures r.Success? ==> fresh(r.value) && r.value.Valid()
      ensures r.Success? ==> r.value.model == model && r.value.targetFeature == targetFeature && r.value.split == split
      ensures r.Success? ==> r.value.inputFeatures == inputFeatures && r.value.metrics == metrics
      ensures r.Success? ==> r.value.dataset == dataset && r.value.records == [] && r.value.modelState == Unfitted
    {
      var p := new Pipeline.Init(metrics, dataset, model, inputFeatures, targetFeature, split, transformers, pickler);
      var checked := CheckTypes(targetFeature, model.modelType);
      if checked.Fail? {
        return Failure(checked.error);
      }
      return Success(p);
    }

    /** `_register_artifact(name, artifact)`. */
    method RegisterArtifact(name: string, record: Record)
      requires Valid()
      modifies this`records
      ensures Valid()
      ensures records == Set(old(records), name, record)
      ensures Get(records, name) == Some(record)
      ensures forall n :: n != name ==> Get(records, n) == Get(old(records), n)
    {
      SetSpec(records, name, record);
      records := Set(records, name, record);
    }

    /** The loop of `_preprocess_features()`: each result's record registered
        in order, and the results' data collected in order. */
    method RegisterResults(results: seq<Processed>) returns (vectors: seq<Matrix>)
      requires Valid()
      modifies this`records
      ensures Valid()
      ensures records == RegisterAll(old(records), results)
      ensures |vectors| == |results| && forall j :: 0 <= j < |results| ==> vectors[j] == results[j].data
    {
      vectors := [];
      for i := 0 to |results|
        invariant Valid()
        invariant records == RegisterAll(old(records), results[..i])
        invariant |vectors| == i && forall j :: 0 <= j < i ==> vectors[j] == results[j].data
      {
        assert results[..i + 1][..i] == results[..i];
        RegisterArtifact(results[i].name, results[i].record);
        vectors := vectors + [results[i].data];
      }
      assert results[..|results|] == results;
    }

    /** The fields `_preprocess_features()` sets, from the records it started
        with: the target's record registered, then the inputs' records in the
        order preprocessing returns them; the target's data and the inputs'
        data, in that order. */
    ghost predicate Prepared(before: Dict<string, Record>, records: Dict<string, Record>, outputVector: Matrix, inputVectors: seq<Matrix>)
    {
      var target := Preprocessed([targetFeature], dataset, transformers);
      var inputs := Preprocessed(inputFeatures, dataset, transformers);
      && target.Success? && inputs.Success? && |target.value| == 1
      && records == RegisterAll(RegisterAll(before, target.value), inputs.value)
      && outputVector == target.value[0].data
      && |inputVectors| == |inputs.value|
      && forall i :: 0 <= i < |inputs.value| ==> inputVectors[i] == inputs.value[i].data
    }

    /** After preprocessing, the target's record stays registered unless an
        input feature has the target's name, and each input name maps to the
        record of the last input result with that name. */
    lemma PreparedRecords(before: Dict<string, Record>, records: Dict<string, Record>, outputVector: Matrix, inputVectors: seq<Matrix>)
      requires UniqueKeys(before) && Prepared(before, records, outputVector, inputVectors)
      ensures RegisteredAfter(records, Preprocessed([targetFeature], dataset, transformers).value[0],
                              Preprocessed(inputFeatures, dataset, transformers).value)
    {
      var targets := Preprocessed([targetFeature], dataset, transformers).value;
      var inputs := Preprocessed(inputFeatures, dataset, transformers).value;
      RegisterAfter(before, targets, inputs, records);
    }

    /** `_preprocess_features()`: the target's record is registered first, then
        the inputs' records in the sorted order preprocessing returns them. */
    method PreprocessStep() returns (r: Outcome<PipelineError>)
      requires Valid()
      modifies this`records, this`outputVector, this`inputVectors
      ensures Valid()
      ensures var target := Preprocessed([targetFeature], dataset, transformers);
        var inputs := Preprocessed(inputFeatures, dataset, transformers);
        && (target.Failure? ==> r == Fail(PreprocessFailed(target.error)) && records == old(records))
        && (target.Success? && inputs.Failure? ==>
              r == Fail(PreprocessFailed(inputs.error)) && records == RegisterAll(old(records), target.value))
        && (target.Success? && inputs.Success? ==> r == Pass)
      ensures r.Fail? ==> outputVector == old(outputVector) && inputVectors == old(inputVectors)
      ensures r.Pass? ==> Prepared(old(records), records, outputVector, inputVectors)
    {
      var target := PreprocessFeatures([targetFeature], dataset, transformers);
      if target.Failure? {
        return Fail(PreprocessFailed(target.error));
      }
      SortByNameSpec(PerFeature([targetFeature], dataset, transformers));
      var first := target.value[0];
      assert target.value[..0] == [];
      assert RegisterAll(old(records), target.value) == Set(old(records), first.name, first.record);
      RegisterArtifact(first.name, first.record);
      var inputs := PreprocessFeatures(inputFeatures, dataset, transformers);
      if inputs.Failure? {
        return Fail(PreprocessFailed(inputs.error));
      }
      var vectors := RegisterResults(inputs.value);
      outputVector := first.data;
      inputVectors := vectors;
      return Pass;
    }

    /** The partitions `_split_data()` makes of the given vectors. */
    ghost predicate SplitFrom(inputs: seq<Matrix>, output: Matrix)
      reads this`trainX, this`testX, this`trainY, this`testY
    {
      && trainX == Heads(inputs, split) && testX == Tails(inputs, split)
      && trainY == Head(output, split) && testY == Tail(output, split)
    }

    /** `_split_data()`: every input vector and the output vector are cut at
        `int(split * len)` into training rows and test rows. */
    method SplitData()
      modifies this`trainX, this`testX, this`trainY, this`testY
      ensures SplitFrom(inputVectors, outputVector)
    {
      trainX := Heads(inputVectors, split);
      testX := Tails(inputVectors, split);
      trainY := Head(outputVector, split);
      testY := Tail(outputVector, split);
    }

    /** `_train()`: the model is fitted on the concatenated training vectors
        and the training targets. */
    method Train() returns (r: Outcome<PipelineError>)
      modifies this`modelState, this`fits
      ensures Compact(trainX).None? ==> r == Fail(ConcatenateFailed) && unchanged(this`modelState, this`fits)
      ensures Compact(trainX).Some? ==>
        r == Pass && modelState == Fitted(Compact(trainX).value, trainY) && fits == old(fits) + 1
    {
      var x := Compact(trainX);
      if x.None? {
        return Fail(ConcatenateFailed);
      }
      modelState := Fitted(x.value, trainY);
      fits := fits + 1;
      return Pass;
    }

    /** `_evaluate()`: one `predict` call on the concatenated test vectors and
        one `(metric, value)` pair per metric, in order. */
    method Evaluate() returns (r: Outcome<PipelineError>)
      modifies this`metricsResults, this`predictions, this`predictCalls
      ensures Compact(testX).None? ==> r == Fail(ConcatenateFailed) && unchanged(this`metricsResults, this`predictions, this`predictCalls)
      ensures Compact(testX).Some? ==>
        var x := Compact(testX).value;
        && r == Pass
        && predictions == model.predict(modelState, x)
        && predictCalls == old(predictCalls) + [x]
        && |metricsResults| == |metrics|
        && metricsResults == Scores(metrics, predictions, testY)
    {
      var x := Compact(testX);
      if x.None? {
        return Fail(ConcatenateFailed);
      }
      var y := testY;
      metricsResults := [];
      var predicted := model.predict(modelState, x.value);
      predictCalls := predictCalls + [x.value];
      for i := 0 to |metrics|
        invariant metricsResults == Scores(metrics[..i], predicted, y)
        invariant predictCalls == old(predictCalls) + [x.value]
      {
        var metric := metrics[i];
        assert metrics[..i + 1] == metrics[..i] + [metric];
        metricsResults := metricsResults + [(metric, metric.evaluate(predicted, y))];
      }
      assert metrics[..|metrics|] == metrics;
      predictions := predicted;
      return Pass;
    }

    /** The second evaluation of `execute()`: the test fields are swapped for
        the training fields, evaluated, and put back. */
    method EvaluateOnTraining() returns (trainMetrics: seq<(Metric, real)>)
      requires SameRows(trainX)
      modifies this`testX, this`testY, this`metricsResults, this`predictions, this`predictCalls
      ensures testX == old(testX) && testY == old(testY)
      ensures predictCalls == old(predictCalls) + [Compact(trainX).value]
      ensures trainMetrics == metricsResults == Scores(metrics, model.predict(modelState, Compact(trainX).value), trainY)
    {
      var originalTestX, originalTestY := testX, testY;
      testX, testY := trainX, trainY;
      var evaluated := Evaluate();
      trainMetrics := metricsResults;
      testX, testY := originalTestX, originalTestY;
    }

    /** `execute()`: preprocessing, the split and one fit; then the test
        metrics on the test rows and the training metrics on the training rows,
        with the test fields swapped for the training fields meanwhile and put
        back afterwards. */
    method Execute() returns (r: Result<Report, PipelineError>)
      requires Valid()
      modifies this
      ensures Valid()
      ensures var target := Preprocessed([targetFeature], dataset, transformers);
        var inputs := Preprocessed(inputFeatures, dataset, transformers);
        && (r.Success? <==> (target.Success? && inputs.Success? &&
              SameRows(Heads(DataOf(inputs.value), split)) && SameRows(Tails(DataOf(inputs.value), split))))
        && (target.Failure? ==> r == Failure(PreprocessFailed(target.error)))
        && (target.Success? && inputs.Failure? ==> r == Failure(PreprocessFailed(inputs.error)))
        && (target.Success? && inputs.Success? && r.Failure? ==> r.error == ConcatenateFailed)
      ensures r.Success? ==> Prepared(old(records), records, outputVector, inputVectors)
      ensures r.Success? ==> SplitFrom(inputVectors, outputVector) && SameRows(trainX) && SameRows(testX)
      ensures r.Success? ==>
        && fits == old(fits) + 1
        && modelState == Fitted(Compact(trainX).value, trainY)
        && predictCalls == old(predictCalls) + [Compact(testX).value, Compact(trainX).value]
        && r.value.predictions == model.predict(modelState, Compact(testX).value)
        && r.value.testMetrics == Scores(metrics, r.value.predictions, testY)
        && r.value.trainMetrics == Scores(metrics, model.predict(modelState, Compact(trainX).value), trainY)
    {
      var prepared := PreprocessStep();
      if prepared.Fail? {
        return Failure(prepared.error);
      }
      assert inputVectors == DataOf(Preprocessed(inputFeatures, dataset, transformers).value);
      r := TrainAndEvaluate();
    }

    /** The part of `execute()` after preprocessing: the split, one fit and
        the two evaluations. */
    method TrainAndEvaluate() returns (r: Result<Report, PipelineError>)
      modifies this`trainX, this`testX, this`trainY, this`testY, this`modelState, this`fits
      modifies this`metricsResults, this`predictions, this`predictCalls
      ensures r.Success? <==> SameRows(Heads(inputVectors, split)) && SameRows(Tails(inputVectors, split))
      ensures r.Failure? ==> r.error == ConcatenateFailed
      ensures r.Success? ==> SplitFrom(inputVectors, outputVector) && SameRows(trainX) && SameRows(testX)
      ensures r.Success? ==>
        && fits == old(fits) + 1
        && modelState == Fitted(Compact(trainX).value, trainY)
        && predictCalls == old(predictCalls) + [Compact(testX).value, Compact(trainX).value]
        && r.value.predictions == model.predict(modelState, Compact(testX).value)
        && r.value.testMetrics == Scores(metrics, r.value.predictions, testY)
        && r.value.trainMetrics == Scores(metrics, model.predict(modelState, Compact(trainX).value), trainY)
    {
      SplitData();
      var trained := Train();
      if trained.Fail? {
        return Failure(trained.error);
      }
      var scored := Evaluate();
      if scored.Fail? {
        return Failure(scored.error);
      }
      var testMetrics, testPredictions := metricsResults, predictions;
      var trainMetrics := EvaluateOnTraining();
      return Success(Report(trainMetrics, testMetrics, testPredictions));
    }

    /** The `artifacts` property: one artifact per exported record in insertion
        order, then the pickled configuration, then the model's artifact. */
    method Artifacts() returns (arts: seq<ArtifactValue>)
      ensures var t := Transforms(records);
        && |arts| == |t| + 2
        && (forall i :: 0 <= i < |t| ==> arts[i] == PlainArtifact(t[i].0, pickler.ofParams(t[i].1.params)))
        && arts[|t|] == PlainArtifact(ConfigName, pickler.ofConfig(inputFeatures, targetFeature, split))
        && arts[|t| + 1] == PlainArtifact(ModelPrefix + model.modelType, model.serialize(modelState))
    {
      arts := [];
      var items := records;
      for i := 0 to |items|
        invariant ExportedAs(arts, Transforms(items[..i]), pickler)
      {
        var (name, record) := items[i];
        ExportStep(arts, items, i, pickler);
        TagExclusive(record);
        if record.tag == OneHotTag {
          arts := arts + [PlainArtifact(name, pickler.ofParams(record.params))];
        }
        if record.tag == ScalerTag {
          arts := arts + [PlainArtifact(name, pickler.ofParams(record.params))];
        }
      }
      assert items[..|items|] == items;
      arts := arts + [PlainArtifact(ConfigName, pickler.ofConfig(inputFeatures, targetFeature, split))];
      arts := arts + [PlainArtifact(ModelPrefix + model.modelType, model.serialize(modelState))];
    }
  }
}
