/** `list_dataset`: the artifacts of a registry listing, converted to datasets. */
module DatasetList {
  import opened Artifacts

  const DatasetType := "dataset"

  /** `Dataset(name=…, asset_path=…, data=…, version=…)`: the four fields are
      copied, the type is "dataset" and metadata and tags take the defaults
      of `Dataset`, both empty. */
  function DatasetOf(a: ArtifactValue): (d: ArtifactValue)
    ensures d.artifactType == DatasetType
    ensures d.name == a.name && d.assetPath == a.assetPath && d.data == a.data && d.version == a.version
    ensures d.metadata == [] && d.tags == []
  {
    ArtifactValue(DatasetType, a.name, a.data, a.version, a.assetPath, [], [])
  }

  /** A dataset as `Dataset`'s constructor makes it. */
  predicate IsDataset(a: ArtifactValue)
  {
    a.artifactType == DatasetType && a.metadata == [] && a.tags == []
  }

  /** Converting keeps exactly what a dataset holds: a converted artifact is a
      dataset, and a dataset converts to itself. */
  lemma DatasetOfFixes(a: ArtifactValue)
    ensures IsDataset(DatasetOf(a))
    ensures IsDataset(a) <==> DatasetOf(a) == a
    ensures DatasetOf(DatasetOf(a)) == DatasetOf(a)
  {
  }

  /** One dataset per artifact, in the same order. */
  method ListDataset(registryList: seq<ArtifactValue>) returns (datasets: seq<ArtifactValue>)
    ensures |datasets| == |registryList|
    ensures forall i :: 0 <= i < |datasets| ==> datasets[i] == DatasetOf(registryList[i])
    ensures forall i :: 0 <= i < |datasets| ==> IsDataset(datasets[i])
  {
    datasets := [];
    for i := 0 to |registryList|
      invariant |datasets| == i
      invariant forall j :: 0 <= j < i ==> datasets[j] == DatasetOf(registryList[j])
    {
      datasets := datasets + [DatasetOf(registryList[i])];
    }
  }
}
