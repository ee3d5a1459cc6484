# AutoML pipeline core, modelled in Dafny

The repository is an AutoML framework: datasets and trained models are stored as
artifacts, a pipeline preprocesses the features of a dataset, splits it,
trains a model and evaluates metrics, and a handful of classifiers validate
their hyper-parameters. This project models the deterministic logic around the
machine-learning library calls and proves what that logic promises:

- **Artifacts** (`Artifacts`, with `Utf8` and `Base64`): the artifact record,
  its defaults, `read`/`save`, and its id `base64(asset_path) + ":" + version`
  (base64 as in section 4 of RFC 4648, standard alphabet, `=` padding). The id
  parses back into path and version, so ids are injective.
- **Storage** (`Storages`): `LocalStorage` as an in-memory directory tree (a
  map of files and a set of directories) with `save/load/delete/list` and
  their `NotFoundError` and operating-system error paths.
- **Database** (`Databases`, with `Dicts`, `Json`, `Strings`): the nested,
  insertion-ordered collection→id→document map, its persistence to storage at
  `collection/id` and its reload. `_persist` and `_load` are modelled twice:
  as written (the `…AsWritten` members, which unpack a listed path into its
  last two components and test `self._data.get(collection, id)`), and as
  evidently intended (the plain members, which read a key back at its first
  '/' and remove exactly the files of documents no longer held); see
  "## Findings".
- **Artifact registry** (`Registries`) and **dataset listing** (`DatasetList`).
- **Metrics** (`Metrics`): the name→class-name registry and accuracy and mean
  squared error over exact reals.
- **Feature detection and preprocessing** (`Features`, `Preprocessing`): dtype
  to feature type, per-feature transformation with an uninterpreted encoder or
  scaler, and the stable sort by feature name.
- **Pipeline** (`Pipelines`): a class whose fields hold the transform records,
  the vectors, the split and the metric results, with the steps of `execute`
  as methods.
- **k nearest neighbours** (`Knn`, `ClassificationKnn`, `KNearestNeighbours`):
  the two in-repository implementations over one specification of "the k
  nearest rows" and "the most common label, first encountered on ties".
- **Hyper-parameter validators** (`Svm`, `Logistic`, with `PyValues`):
  `validate_parameters` as total functions over dynamically typed Python
  values, and the parameter keys `fit` records.

Library objects are parameters of the model: a fitted model is a datatype of
functions (`Pipelines.Model`), a metric a name and a scoring function, pickle a
`Pipelines.Pickler`, JSON a `Json.Codec` assumed to give back the documents
a lemma depends on (`Json.RoundTripsOn`, `Databases.HeldRoundTrips`), and the one-hot encoder and standard scaler a
`Preprocessing.Transformer` that yields one row per dataset row.

## Model

| member | source | states |
|---|---|---|
| Artifacts.IdSpec | autoop/core/ml/artifact.py:29-33 | the id is the base64 text of the UTF-8 path, then ':' and the version; the base64 part has length 4·⌈n/3⌉, uses only the RFC 4648 alphabet and '=', holds no ':'; parsing the id gives back path and version |
| Artifacts.IdInjective | autoop/core/ml/artifact.py:32-33 | two artifacts with the same id have the same asset path and the same version |
| Artifacts.SlashInId | autoop/core/ml/artifact.py:32-33 | a path such as "???" gives the id "Pz8/:1.0.0", so ids can contain '/' |
| Artifacts.Artifact.Default | autoop/core/ml/artifact.py:21-27 | the defaults: type "model:torch", empty name, empty data, version "1.0.0", empty asset path, no metadata, no tags |
| Artifacts.Artifact.constructor | autoop/core/ml/artifact.py:21-27 | an artifact built from explicit field values holds exactly those values |
| Artifacts.Artifact.Id | autoop/core/ml/artifact.py:29-33 | the id parses back into this artifact's asset path and version and contains ':' |
| Artifacts.Artifact.Read | autoop/core/ml/artifact.py:35-37 | `read` returns the stored data unchanged |
| Artifacts.Artifact.Save | autoop/core/ml/artifact.py:39-42 | `save(d)` returns d and sets data to d, every other field unchanged |
| Base64.RoundTrip | autoop/core/ml/artifact.py:32 | decoding the encoding of any byte string gives it back |
| Base64.EncodeLength | autoop/core/ml/artifact.py:32 | the encoding of n bytes has 4·⌈n/3⌉ characters |
| Base64.EncodeAlphabet | autoop/core/ml/artifact.py:32 | every character of an encoding is in the alphabet or '=', and none is ':' |
| Utf8.RoundTrip | autoop/core/ml/artifact.py:32 | decoding the UTF-8 encoding of any string gives it back |
| Artifacts.EncodingsInjective | autoop/core/ml/artifact.py:32 | distinct strings have distinct UTF-8 encodings, and distinct byte strings distinct base64 encodings |
| Storages.LocalStorage.constructor | autoop/core/storage.py:58-61 | a storage over a consistent tree keeps that tree and its base directory exists |
| Storages.LocalStorage.Save | autoop/core/storage.py:63-68 | on success the key maps to the new bytes, every other key keeps its bytes and the parent directories exist; a key that is a directory fails with `IsADirectory`, one whose own directory is a file with `FileExists`, one further below a file with `NotADirectory`, each with the stored tree unchanged |
| Storages.SaveBelowFile | autoop/core/storage.py:63-68 | over the file "a", saving "a/b" fails with `FileExists` and saving "a/b/c" with `NotADirectory` |
| Storages.LocalStorage.Load | autoop/core/storage.py:70-74 | loading succeeds exactly for a stored key and then returns its bytes; any other key fails |
| Storages.LocalStorage.Delete | autoop/core/storage.py:76-79 | deletion succeeds exactly for a stored key and removes only that key; a missing key fails with `NotFound` and changes nothing |
| Storages.LocalStorage.List | autoop/core/storage.py:81-85 | a missing prefix fails with `NotFound`; otherwise each visible file below the prefix is listed exactly once, under the glob's path: the base joined with the prefix, then the key relative to the prefix |
| Storages.SavePreservesTree | autoop/core/storage.py:63-68 | a successful save keeps the tree consistent: no name is both file and directory and every parent is a directory |
| Databases.SplitKeySpec | autoop/core/database.py:93 | reading a key back at its first '/' gives (collection, id) exactly when the key is `collection/id` and the collection has no '/' |
| Databases.WithEntrySpec | autoop/core/database.py:27-29 | after `set` the entry is held under (collection, id), every other (collection, id) keeps its entry, and keys stay unique |
| Databases.WithoutEntrySpec | autoop/core/database.py:53-56 | after `delete` a truthy entry is gone, a falsy one (such as `{}`) is kept, and every other entry is unchanged |
| Databases.DocumentWrites | autoop/core/database.py:79-80 | each document of a collection is written, in order, under `collection/id` as its JSON text |
| Databases.Database.Open | autoop/core/database.py:10-13 | corrected program: a database opened on a storage holds exactly the documents loaded from it; opening fails exactly when some visible document file does not decode, and then every entry held was decoded from its file |
| Databases.Database.Get | autoop/core/database.py:33-43 | `get` returns the entry held under (collection, id), and None for a missing or empty collection or a missing id |
| Databases.Database.List | autoop/core/database.py:59-68 | `list` returns exactly the collection's (id, document) pairs in insertion order, each a held entry and every held entry among them; [] for a missing or empty collection |
| Databases.Database.Set | autoop/core/database.py:15-31 | corrected program: a non-object entry fails the assertion and changes nothing; otherwise the entry is stored, returned, and everything is persisted |
| Databases.Database.Delete | autoop/core/database.py:45-57 | corrected program: a missing or empty collection changes nothing; otherwise the delete of a truthy entry takes place and everything is persisted |
| Databases.Database.Refresh | autoop/core/database.py:70-72 | corrected program: after `refresh` the collections are exactly the documents of the storage, or some stored document did not decode and the collections hold only decoded documents of the storage |
| Databases.Database.Persist | autoop/core/database.py:74-87 | corrected program: every document of a non-empty collection is saved at its key, then exactly the visible files of documents no longer held are removed; a failing save is reported |
| Databases.Database.SaveDocuments | autoop/core/database.py:76-80 | the storage afterwards is the result of saving every write in order, or the first failure |
| Databases.Database.SaveCollection | autoop/core/database.py:79-80 | saving one collection's documents advances the run of saves by exactly those writes |
| Databases.Database.RemoveStale | autoop/core/database.py:82-87 | corrected program: every listed file whose document is no longer held is removed and no other file is touched |
| Databases.PrunedByStep | autoop/core/database.py:84-87 | corrected program: examining one more listed key removes its file exactly when its document is no longer held |
| Databases.PrunedByListed | autoop/core/database.py:83-87 | corrected program: once every listed key has been examined, the files left are the pruned files |
| Databases.Database.Load | autoop/core/database.py:89-98 | corrected program: the collections become exactly the visible documents of the storage, each decoded, or a document that does not decode is reported and the collections hold only decoded documents of the storage |
| Databases.PersistLoadRoundTrip | autoop/core/database.py:74-98 | corrected program: for a codec that gives back every held document, persisting and then loading gives back every in-memory document and no other |
| Databases.WritesDistinct | autoop/core/database.py:76-80 | the writes of `_persist` go to pairwise distinct keys |
| Databases.WritesContain | autoop/core/database.py:76-80 | every held document is among the writes, at its key and as its JSON text |
| Databases.Database.OpenAsWritten | autoop/core/database.py:10-13 | as written: the new database holds what `_load` as written builds from the storage's listing, and its outcome |
| Databases.Database.SetAsWritten | autoop/core/database.py:15-31 | as written: as `Set`, with the storage afterwards what `_persist` as written leaves |
| Databases.Database.DeleteAsWritten | autoop/core/database.py:45-57 | as written: as `Delete`, with the storage afterwards what `_persist` as written leaves |
| Databases.Database.RefreshAsWritten | autoop/core/database.py:70-72 | as written: the collections and outcome are what `_load` as written builds from the storage's listing |
| Databases.Database.PersistAsWritten | autoop/core/database.py:74-87 | as written: the saves of every non-empty collection's documents, then the removal loop as written over the listing of the saved files; a failing save, unpack or delete is reported |
| Databases.Database.RemoveStaleAsWritten | autoop/core/database.py:82-87 | as written: each listed path is unpacked into its last two components and that file deleted when the collection is missing (id falsy) or empty; the files and outcome are exactly `PrunedAsWritten` of the listing |
| Databases.Database.LoadAsWritten | autoop/core/database.py:89-98 | as written: each listed path is unpacked into its last two components and the file they name loaded and decoded; an unpack, load or decode failure stops the load keeping what was built; the collections and outcome are exactly `LoadedAsWritten` of the listing |
| Databases.ListedLastTwo | autoop/core/database.py:85 | the listed path of `collection/id` unpacks, as written, into that collection and id when neither holds '/' |
| Databases.PrunedAsWrittenKeeps | autoop/core/database.py:84-87 | the removal loop as written keeps, with its bytes, the file of any document whose collection is non-empty |
| Databases.LoadedAsWrittenEntry | autoop/core/database.py:92-98 | a successful load as written holds under (c, id) the decoded file `c/id` when some listed path unpacks into (c, id), and nothing new otherwise |
| Databases.LoadedAsWrittenFails | autoop/core/database.py:92-94 | the load as written fails once a listed path unpacks into a collection and id whose file does not exist |
| Databases.SlashInIdLoadFails | autoop/core/database.py:93-94 | a listed document whose id holds '/' makes the load as written fail unless a file sits at the key its last two components name |
| Databases.TopLevelFileLoadFails | autoop/core/database.py:92-94 | a visible file directly under the base makes the load as written fail unless some collection has a file of that name |
| Databases.WritesAvoid | autoop/core/database.py:76-80 | `_persist` writes no file for a document the collections do not hold |
| Databases.WithoutEntryReloadable | autoop/core/database.py:53-56 | a delete keeps every collection and document key readable back from its file |
| Databases.DeletedComesBack | autoop/core/database.py:45-98 | as written, a document deleted while its collection holds another keeps its file through `_persist`, and a successful `refresh` holds it again, for a codec that gives back that document |
| Databases.DeletedAsWrittenKeepsHeld | autoop/core/database.py:86 | the deletion test as written never removes the file of a document still held |
| Databases.StaleFileKeptAsWritten | autoop/core/database.py:82-87 | with another document in the same collection, the file of a deleted document is stale yet the test as written keeps it |
| Databases.LastTwoOf | autoop/core/database.py:85 | `split(os.sep)[-2:]` of a path ending in two '/'-free parts gives those two parts |
| Databases.SlashInIdAsWritten | autoop/core/database.py:93 | an artifact id containing '/' is read back as written under the wrong collection and id, while the first-'/' reading recovers it |
| Registries.EntryFields | app/core/system.py:20-27 | the registered entry holds the artifact's name, version, asset path, tags, metadata and type |
| Registries.Matching | app/core/system.py:33-35 | the artifacts kept are exactly those of the given type, or all of them without one |
| Registries.ArtifactRegistry.constructor | app/core/system.py:10-14 | a registry over a database and a separate blob storage |
| Registries.ArtifactRegistry.FromEntryOf | app/core/system.py:50-58 | rebuilding an artifact from its own entry gives its fields with the bytes stored at its path, and fails when no blob is stored there |
| Registries.ArtifactRegistry.SharedBlob | app/core/system.py:18 | two artifacts with the same asset path read back the same bytes, whatever their versions |
| Registries.ArtifactRegistry.Get | app/core/system.py:48-58 | an unregistered id fails; the entry of an artifact whose blob is stored gives that artifact with the stored bytes |
| Registries.ArtifactRegistry.ListedRegistered | app/core/system.py:30-46 | listing the entries of registered artifacts gives exactly the matching artifacts, in database order |
| Registries.ArtifactRegistry.ListedFailure | app/core/system.py:30-46 | the first entry that cannot be rebuilt decides the outcome of the listing |
| Registries.ArtifactRegistry.List | app/core/system.py:30-46 | `list(type)` rebuilds the database's artifact entries in order, filtered by type |
| Registries.ArtifactRegistry.Register | app/core/system.py:16-28 | the bytes are saved at the asset path, then the entry under the id; a failing blob save changes nothing; otherwise the database's storage is what `_persist` leaves, and registering succeeds exactly when every document write succeeds, after which `get(id)` returns the artifact |
| Registries.ArtifactRegistry.FromEntryPath | app/core/system.py:56 | an entry that rebuilds names an asset path whose blob is stored |
| Registries.ArtifactRegistry.Delete | app/core/system.py:60-63 | an unregistered id, an entry without a string `asset_path` or a missing blob fails and changes nothing; otherwise the blob and the entry are removed, the database's storage is what `_persist` leaves, deletion succeeds exactly when every document write succeeds, and `get(id)` then fails |
| DatasetList.DatasetOf | app/datasets/list.py:22-25 | a dataset copies name, asset path, data and version, has type "dataset", and no metadata or tags |
| DatasetList.ListDataset | app/datasets/list.py:8-27 | one dataset per artifact, in order, each of type "dataset" |
| Metrics.GetMetricSpec | autoop/core/ml/metric.py:12-42 | `get_metric` succeeds exactly for the names in `METRICS`, giving MeanSquaredError and Accuracy; any other name fails as misspelt |
| Metrics.AccuracyName | autoop/core/ml/metric.py:35 | "accuracy" becomes the class name "Accuracy" |
| Metrics.MeanSquaredErrorName | autoop/core/ml/metric.py:35 | "mean_squared_error" becomes the class name "MeanSquaredError" |
| Metrics.ClassNameShape | autoop/core/ml/metric.py:35 | a class name has no '_' and is as long as the name without its underscores |
| Metrics.ClassNameThree | autoop/core/ml/metric.py:35 | a three-word name becomes the concatenation of its capitalised words |
| Metrics.ClassNameOne | autoop/core/ml/metric.py:35 | a name without '_' becomes its capitalised self |
| Metrics.AccuracySpec | autoop/core/ml/metric.py:83-84 | over equal-length non-empty inputs accuracy lies in [0, 1] and is 1 exactly when truth equals prediction |
| Metrics.MeanSquaredErrorSpec | autoop/core/ml/metric.py:76-77 | over equal-length non-empty inputs the mean squared error is at least 0 and is 0 exactly when truth equals prediction |
| Metrics.CountEqualBounds | autoop/core/ml/metric.py:84 | the number of equal positions is at most the length, and equal to it exactly when the sequences are equal |
| Metrics.SumSquaresZero | autoop/core/ml/metric.py:77 | the sum of squared differences is non-negative and zero exactly when the sequences are equal |
| Features.Lookup | autoop/functional/preprocessing.py:21 | the column found has the name asked for; none is found exactly when no column has it |
| Features.DetectFeatureTypes | autoop/functional/feature.py:6-25 | one feature per column in column order, named after the column, numerical exactly when the dtype is int64 or float64 |
| Features.DetectAllFloat | autoop/tests/test_features.py:28-34 | an all-float64 table yields only numerical features |
| Features.DetectStrings | autoop/tests/test_features.py:73-75 | an all-object table yields only categorical features |
| Preprocessing.FitTransform | autoop/functional/preprocessing.py:21 | a column reshaped to N×1 transforms to N rows |
| Preprocessing.PreprocessFeatures | autoop/functional/preprocessing.py:8-31 | the loop returns the sorted per-feature results, or the first feature whose column is missing |
| Preprocessing.PreprocessedSpec | autoop/functional/preprocessing.py:16-31 | the results exist exactly when every column is present; there is one per feature, sorted by name, a permutation of the per-feature results, equal names in input order; each carries its feature's name, tag "OneHotEncoder" exactly for categorical and "StandardScaler" exactly for numerical, and one row per dataset row |
| Preprocessing.SortByNameSpec | autoop/functional/preprocessing.py:30 | the sort keeps the length, orders by name, keeps the elements of each name in input order, and is a permutation |
| Preprocessing.InsertSorted | autoop/functional/preprocessing.py:30 | inserting into a sorted list keeps it sorted |
| Preprocessing.InsertWithName | autoop/functional/preprocessing.py:30 | an inserted element goes after every element of the same name |
| Pipelines.CheckTypes | autoop/core/ml/pipeline.py:29-32 | construction fails exactly for a categorical target with a non-classification model; the "continuous" test cannot fire |
| Pipelines.SplitIndexSpec | autoop/core/ml/pipeline.py:85-88 | for 0 ≤ split ≤ 1 the split index k is the integer part of split·n, so 0 ≤ k ≤ n |
| Pipelines.SliceBound | autoop/core/ml/pipeline.py:85-88 | a Python slice bound lies in [0, n] and is k itself when 0 ≤ k ≤ n |
| Pipelines.HeadTail | autoop/core/ml/pipeline.py:83-88 | the train part followed by the test part is the original vector; the train part has k rows and the test part n − k |
| Pipelines.HeadsTails | autoop/core/ml/pipeline.py:85-86 | every input vector is its train part followed by its test part |
| Pipelines.Compact | autoop/core/ml/pipeline.py:90-91 | concatenation along columns succeeds exactly when all vectors have the same number of rows, and keeps that number |
| Pipelines.SplitSameRows | autoop/core/ml/pipeline.py:83-91 | splitting vectors of equal height gives train and test parts that concatenate, with heights adding up |
| Pipelines.RegisterAllUnique | autoop/core/ml/pipeline.py:71-72 | registering records keeps one record per name |
| Pipelines.RegisterAllUntouched | autoop/core/ml/pipeline.py:71-72 | a name not registered again keeps its record |
| Pipelines.RegisterAllLast | autoop/core/ml/pipeline.py:71-72 | a name maps to the record of its last registration |
| Pipelines.RegisterAfter | autoop/core/ml/pipeline.py:74-81 | registering the target and then the inputs keeps one record per name; the target's record survives unless an input has its name, and each input name maps to its last input's record |
| Pipelines.Transforms | autoop/core/ml/pipeline.py:52-61 | the exported records are exactly those tagged "OneHotEncoder" or "StandardScaler", in insertion order |
| Pipelines.PlainArtifact | autoop/core/ml/pipeline.py:57 | an exported artifact has the given name and data and the artifact defaults otherwise |
| Pipelines.Pipeline.Init | autoop/core/ml/pipeline.py:15-28 | a new pipeline keeps its arguments, has no records and an unfitted model |
| Pipelines.Pipeline.Create | autoop/core/ml/pipeline.py:15-32 | construction fails exactly for a categorical target with a non-classification model; otherwise a pipeline with its arguments and no records; the split defaults to 0.8 (`Pipelines.DefaultSplit`) |
| Pipelines.Pipeline.RegisterArtifact | autoop/core/ml/pipeline.py:71-72 | the name maps to the new record, every other name keeps its record |
| Pipelines.Pipeline.RegisterResults | autoop/core/ml/pipeline.py:78-81 | each result is registered in order and its data returned in order |
| Pipelines.Pipeline.PreparedRecords | autoop/core/ml/pipeline.py:74-81 | after preprocessing the target's record stays unless an input has its name, and each input name maps to its last record |
| Pipelines.Pipeline.PreprocessStep | autoop/core/ml/pipeline.py:74-81 | the target is preprocessed and registered first, then the inputs in sorted order; the output vector and input vectors are their data; a missing target column fails with nothing registered, a missing input column after a present target fails with the target's record still registered, and a failure leaves the vectors unchanged |
| Pipelines.Pipeline.SplitData | autoop/core/ml/pipeline.py:83-88 | train fields hold the first k rows of every vector and test fields the rest |
| Pipelines.Pipeline.Train | autoop/core/ml/pipeline.py:93-96 | the model is fitted once on the concatenated train inputs and the train outputs; unequal heights fail |
| Pipelines.Pipeline.Evaluate | autoop/core/ml/pipeline.py:98-106 | one predict call on the current test inputs, and one (metric, value) pair per metric in configuration order, scored against the test outputs |
| Pipelines.Pipeline.EvaluateOnTraining | autoop/core/ml/pipeline.py:117-123 | with the test fields swapped for the train fields, the metrics are scored on the train partition, and the test fields are restored |
| Pipelines.Pipeline.Execute | autoop/core/ml/pipeline.py:108-129 | succeeds exactly when both preprocessing calls succeed and the train parts, and the test parts, of the input vectors have one row count; a preprocessing error is raised as is and any other failure is the concatenation; on success the model is fitted once on the train partition, test metrics use the test partition, train metrics the train partition, predictions are the test predictions, and the test fields hold the test partition again |
| Pipelines.Pipeline.TrainAndEvaluate | autoop/core/ml/pipeline.py:110-129 | succeeds exactly when the train parts, and the test parts, of the input vectors have one row count, and fails only with the concatenation error; after the split, one fit on the train partition; test metrics and predictions come from the test partition and train metrics from the train partition |
| Pipelines.ExecutableSpec | autoop/core/ml/pipeline.py:74-99 | on a dataset whose columns have one length, `execute()` runs to the end exactly when the target's and inputs' columns are present and there is at least one input feature |
| Pipelines.Pipeline.Artifacts | autoop/core/ml/pipeline.py:50-69 | one artifact per transform record in insertion order, then "pipeline_config", then the model artifact: length is the number of transform records plus 2 |
| Knn.SquaredDistance | autoop/core/ml/model/classification/classification.py:32 | the squared distance is non-negative and zero exactly for equal points |
| Knn.ArgSort | autoop/core/ml/model/classification/classification.py:33 | the order lists every row index once, by non-decreasing distance |
| Knn.ArgSortedCovers | autoop/core/ml/model/classification/classification.py:33 | every row index appears in the argsort order |
| Knn.PrefixNearest | autoop/core/ml/model/classification/classification.py:33 | the first min(k, n) indices of the order are distinct nearest rows in non-decreasing distance order: none left out is closer |
| Knn.FirstIndex | autoop/core/ml/model/classification/classification.py:35 | the first position of a label in the neighbour labels |
| Knn.MostCommonUnique | autoop/core/ml/model/classification/classification.py:35-36 | the most common label, first encountered on ties, is unique |
| Knn.MostCommon | autoop/core/ml/model/classification/classification.py:35-36 | the counting loop returns a label of maximal count, the first encountered among ties |
| Knn.PredictionIsLabel | autoop/core/ml/model/classification/classification.py:34-36 | a prediction is one of the training labels |
| Knn.SingleNeighbour | autoop/core/ml/model/classification/classification.py:32-36 | with k = 1 the prediction is the label of a closest training row |
| Knn.PredictSingle | autoop/core/ml/model/classification/classification.py:31-36 | a point of the wrong width fails, no rows or k = 0 leave no neighbour, missing labels fail; otherwise the majority label of min(k, n) distinct rows taken nearest first, none left out closer |
| Knn.Predict | autoop/core/ml/model/classification/classification.py:28-29 | one prediction per input row, in row order, each a majority label of its k nearest rows |
| ClassificationKnn.KNearestNeighbors.New | autoop/core/ml/model/classification/classification.py:16-22 | k ≤ 0 fails with "k must be greater than 0"; otherwise an unfitted classifier with that k |
| ClassificationKnn.KNearestNeighbors.Init | autoop/core/ml/model/classification/classification.py:16-22 | a new classifier keeps k and holds no training data |
| ClassificationKnn.KNearestNeighbors.Fit | autoop/core/ml/model/classification/classification.py:24-26 | `fit` stores the observations and labels unchanged |
| ClassificationKnn.KNearestNeighbors.Predict | autoop/core/ml/model/classification/classification.py:28-36 | one prediction per input row from exactly the stored observations and labels; unfitted fails |
| KNearestNeighbours.ValidateK | autoop/core/ml/model/classification/k_nearest_neighbours.py:20-26 | a non-int fails with `TypeError`, an int below 1 with `ValueError`, any other int (bool included) is accepted |
| KNearestNeighbours.ValidateKCases | autoop/core/ml/model/classification/k_nearest_neighbours.py:18-26 | the default 3 and True are accepted, False gives `ValueError`, 3.0 gives `TypeError` |
| KNearestNeighbours.KNearestNeighbors.Init | autoop/core/ml/model/classification/k_nearest_neighbours.py:18 | a new classifier keeps a valid k and has no parameters |
| KNearestNeighbours.KNearestNeighbors.New | autoop/core/ml/model/classification/k_nearest_neighbours.py:18-26 | construction fails exactly as `validate_k` does, and otherwise keeps the validated k |
| KNearestNeighbours.KNearestNeighbors.Fit | autoop/core/ml/model/classification/k_nearest_neighbours.py:28-36 | the parameters hold exactly "observations" and "ground_truth", with the given data |
| KNearestNeighbours.KNearestNeighbors.Predict | autoop/core/ml/model/classification/k_nearest_neighbours.py:38-61 | one prediction per row, in order, each a majority label of min(k, n) distinct rows taken nearest first, none left out closer |
| Svm.ValidateParameters | autoop/core/ml/model/classification/support_vector_machine.py:34-73 | the result has a positive float C, a listed kernel, a positive int degree and gamma "scale"; each valid input is kept and each invalid one replaced by its default |
| Svm.ValidateFixes | autoop/core/ml/model/classification/support_vector_machine.py:34-73 | validation changes nothing exactly on valid parameters, and validating twice is validating once |
| Svm.ValidateIndependent | autoop/core/ml/model/classification/support_vector_machine.py:46-67 | each corrected parameter depends only on its own input |
| Svm.ValidateCases | autoop/core/ml/model/classification/support_vector_machine.py:18-20 | the defaults are valid, an int C becomes 1.0, a degree of True is kept |
| Svm.SvmClassifier.constructor | autoop/core/ml/model/classification/support_vector_machine.py:18-31 | the classifier holds the validated parameters |
| Svm.SvmClassifier.Fit | autoop/core/ml/model/classification/support_vector_machine.py:82-91 | the parameters are exactly the six fixed attributes, each holding the fitted model's attribute of its name, followed by "_coef" with the model's coefficients exactly when the kernel is linear |
| Svm.FixedAttributes | autoop/core/ml/model/classification/support_vector_machine.py:82-89 | the six fitted attributes are stored under distinct keys in order, each holding the model's attribute of its name, and there is no "_coef" |
| Logistic.ValidateParameters | autoop/core/ml/model/classification/multiple_logistic_regressor.py:31-55 | the result has a positive float C and a listed penalty; each valid input is kept and each invalid one replaced by its default |
| Logistic.ValidateFixes | autoop/core/ml/model/classification/multiple_logistic_regressor.py:41-55 | validation changes nothing exactly on valid parameters, and validating twice is validating once |
| Logistic.ValidateIndependent | autoop/core/ml/model/classification/multiple_logistic_regressor.py:41-53 | a bad C never changes the penalty, nor a bad penalty C |
| Logistic.DefaultsValid | autoop/core/ml/model/classification/multiple_logistic_regressor.py:18-20 | the defaults 1.0 and "l2" are valid |
| Logistic.MultipleLogisticRegressor.constructor | autoop/core/ml/model/classification/multiple_logistic_regressor.py:18-28 | the regressor holds the validated parameters |
| Logistic.MultipleLogisticRegressor.Fit | autoop/core/ml/model/classification/multiple_logistic_regressor.py:62-66 | the parameters hold exactly "_coef" and "_intercept" |

## Left out

- Numerical arrays are sequences of rows of reals; NumPy broadcasting, shapes beyond "equal number of rows" and IEEE floating point (NaN, infinities, rounding in the metrics) are not modelled.
- Pipelines.SplitIndex: the product `split * len(vector)` is taken over exact reals, not floats, so float rounding at the boundary is not captured.
- The one-hot encoder, the standard scaler and their `get_params()` are uninterpreted; only "one output row per input row" is assumed of them.
- pickle and JSON are opaque functions (`Pipelines.Pickler`, `Json.Codec`); their byte formats are not modelled. JSON numbers are exact reals, so no codec gives back every value; `Databases.PersistLoadRoundTrip` and `Databases.DeletedComesBack` instead assume the round trip of the documents they are about.
- pandas (`Dataset.read`, CSV in `dataset.py`) is replaced by a table of named, typed columns; `Dataset.from_dataframe`, `read` and `save` are not part of this model.
- The real filesystem and `glob` are replaced by an in-memory tree; permissions, symbolic links and concurrent access are not modelled, and the listing order of `glob` is left unspecified.
- The `Storage` abstract base class and its docstrings are not modelled separately from `LocalStorage`.
- `AutoMLSystem` (the singleton with hard-coded paths), the Streamlit pages, `create.py` and `save.py` are not modelled.
- The library-backed models (`KNN.py`, `SVM.py`, decision tree, the regression models, xgboost) and the `fit`/`predict` bodies of the SVM and logistic wrappers call scikit-learn; they are the abstract `Pipelines.Model`, and the fitted values are parameters.
- `get_model` and `xgboost_regressor.validate_parameters` are unimplemented stubs and are not modelled.
- The pipeline calls `metric.evaluate(predictions, Y)` and `model.to_artifact(...)`, which the `Metric` and `Model` classes do not define; the model gives them their evident meaning (a scoring function and a serialised model artifact).
- The concrete models' `super().__init__(...)` calls with arguments the base class does not accept are not modelled.
- KNearestNeighbours.ValidateK: `Model` (autoop/core/ml/model/model.py:9) is a plain class, not a pydantic model, so as written `Field` and `field_validator` do nothing: `validate_k` never runs, and would return None if it did. The model applies the body of `validate_k` to the k it is given, uncoerced, and returns the validated k. Pydantic's lax mode would first coerce `k=3.0` or `k="3"` to 3 and accept it, where the model reports `TypeError` for 3.0; that coercion is not modelled.
- KNearestNeighbours.KNearestNeighbors.New: as written `KNearestNeighbors(k=…)` raises `TypeError` (the plain class accepts no arguments) and `self.k` is the `FieldInfo` object. The model instead checks the given k, uncoerced, with the body of `validate_k` (default 3). Pydantic's lax coercion of whole floats and numeric strings before the validator is not modelled.
- Artifacts.IdOf: `asset_path.encode()` raises `UnicodeEncodeError` for a string holding a lone surrogate, as `os.fsdecode` produces for a non-UTF-8 file name. A Dafny `char` holds only Unicode scalar values, so such strings and that error path are not modelled.
- Databases.Database.Open: models the corrected `_load`; the program as written is `Databases.Database.OpenAsWritten`, which fails with `NotFound` where the corrected one succeeds (an id holding '/', `Databases.SlashInIdLoadFails`).
- Databases.Database.Set: models the corrected `_persist`; as written it is `Databases.Database.SetAsWritten`.
- Databases.Database.Delete: models the corrected `_persist`, which removes the deleted document's file; as written it is `Databases.Database.DeleteAsWritten`, which keeps the file while the collection holds another document (`Databases.DeletedComesBack`).
- Databases.Database.Refresh: models the corrected `_load`; as written it is `Databases.Database.RefreshAsWritten`.
- Databases.Database.Persist: models the corrected `_persist`; as written it is `Databases.Database.PersistAsWritten`.
- Databases.Database.RemoveStale: models the corrected removal loop; as written it is `Databases.Database.RemoveStaleAsWritten`.
- Databases.Database.Load: models the corrected `_load`, which skips a file directly under the base; as written it is `Databases.Database.LoadAsWritten`, which unpacks such a path into the base's last directory and the file name and then fails to load it (`Databases.TopLevelFileLoadFails`).
- Databases.PrunedByStep: states the corrected removal test (`Databases.Stale`); the test as written is `Databases.PrunedAsWritten`, with `Databases.PrunedAsWrittenKeeps` for what it keeps.
- Databases.PrunedByListed: states the corrected pruning; as written the removal loop is `Databases.PrunedAsWritten` (`Databases.PrunedAsWrittenKeeps`).
- Databases.PersistLoadRoundTrip: holds of the corrected program; as written a deleted document comes back (`Databases.DeletedComesBack`) and an id holding '/' makes the load fail (`Databases.SlashInIdLoadFails`).
- Storages.LocalStorage: keys are taken literally, as names in the tree: a key that starts with '/', contains ".." or "//" or ends in '/' is a name of its own, whereas `os.path.join` and the operating system would discard the base, step up a directory, collapse the separators or refuse the name. Every error carries the joined path of the key, where Python's `makedirs` errors name the directory it tried to create.
- Svm.ValidateParameters: the notices `validate_parameters` prints when it replaces a parameter are output only and are not modelled.
- Logistic.ValidateParameters: the notices `validate_parameters` prints when it replaces a parameter are output only and are not modelled.
- Metrics.ClassNameShape: `Strings.Capitalize` maps case for ASCII letters only, so this holds of Python's `str.capitalize` only for ASCII names ('ß' capitalises to "Ss" in Python).
- Metrics.ClassNameThree: holds of Python's `str.capitalize` only for ASCII names, as `Strings.Capitalize` maps case for ASCII letters only.
- Metrics.ClassNameOne: holds of Python's `str.capitalize` only for ASCII names, as `Strings.Capitalize` maps case for ASCII letters only.
- `Feature.__str__` raises a string rather than an exception, so `Feature.__str__` and `Pipeline.__str__` are not modelled.
- `Feature.type` admits only "numerical" and "categorical", so `Features.FeatureType` has just those two values and the branch of `preprocess_features` for any other type is unreachable in the model.
- Python's runtime type assertions on `collection` and `id` in `Database.set` are enforced by Dafny's static types; only the dictionary assertion is an error path.
- Knn.PredictSingle: `NoNeighbours` and `LabelMissing` are both `IndexError` in Python; they are kept apart for clarity.
- ClassificationKnn.KNearestNeighbors.New: k is an integer; a non-integer k (which Python would compare and store) is not modelled.
- The demonstration code at the end of `classification.py` and the `LogisticRegression`/`DecisionTree` wrappers there are not modelled.
- Registries.ArtifactRegistry.Get: the entry's fields are read as text and dictionaries; entries that are not the registry's own are rejected with an error rather than the Python `KeyError`/`TypeError`.

## Findings

| source | as written | input that shows it | evidently intended | confidence | as-written member | corrected member |
|---|---|---|---|---|---|---|
| autoop/core/database.py:86 | `self._data.get(collection, id)` tests the collection (with `id` as default), so a file is removed only when its whole collection is missing or empty | collection "c" holding "j" after "i" was deleted: the file `c/i` is kept and comes back on `refresh` | remove the file of every document no longer held | high (not executed) | Databases.DeletedComesBack | Databases.Database.RemoveStale |
| autoop/core/database.py:85 | `key.split(os.sep)[-2:]` takes the last two path components, but artifact ids are base64 and may contain '/' | asset path "???" gives id "Pz8/:1.0.0", stored at `artifacts/Pz8/:1.0.0` and unpacked into collection "Pz8", id ":1.0.0"; `_load` then loads `Pz8/:1.0.0`, which does not exist, and raises `NotFoundError` | split the key relative to the base directory at its first '/' | high (not executed) | Databases.SlashInIdAsWritten | Databases.SplitKeySpec |
