/** Feature descriptors, the table a dataset reads as, and the detection of
    each column's semantic type from its storage dtype. */
module Features {
  import opened Wrappers

  /** `Feature.type`: the only two values the descriptor admits. */
  datatype FeatureType = Numerical | Categorical

  /** The string the source compares feature types against. */
  function TypeName(t: FeatureType): string
  {
    match t
    case Numerical => "numerical"
    case Categorical => "categorical"
  }

  datatype Feature = Feature(name: string, featureType: FeatureType)

  /** One cell of a table: a number or a string. */
  datatype Value = Num(number: real) | Text(text: string)

  /** One named column of a table and the dtype the CSV reader gave it. */
  datatype Column = Column(name: string, dtype: string, values: seq<Value>)

  /** A dataset as read into memory: its columns in order. */
  type Table = seq<Column>

  /** Every column has `rows` values. */
  ghost predicate Rectangular(t: Table, rows: nat)
  {
    forall i :: 0 <= i < |t| ==> |t[i].values| == rows
  }

  /** `raw[name]`: the first column with that name, if any. */
  function Lookup(t: Table, name: string): (r: Option<Column>)
    ensures r.Some? ==> r.value in t && r.value.name == name
    ensures r.None? <==> forall i :: 0 <= i < |t| ==> t[i].name != name
  {
    if |t| == 0 then None
    else if t[0].name == name then Some(t[0])
    else Lookup(t[1..], name)
  }

  /** The dtypes that count as numerical. */
  predicate IsNumericDtype(dtype: string)
  {
    dtype == "int64" || dtype == "float64"
  }

  /** `detect_feature_types`: one feature per column, in column order, named
      after the column, numerical exactly when the dtype is int64 or float64. */
  method DetectFeatureTypes(t: Table) returns (features: seq<Feature>)
    ensures |features| == |t|
    ensures forall i :: 0 <= i < |t| ==> features[i].name == t[i].name
    ensures forall i :: 0 <= i < |t| ==>
      (features[i].featureType == Numerical <==> IsNumericDtype(t[i].dtype))
  {
    features := [];
    for i := 0 to |t|
      invariant |features| == i
      invariant forall j :: 0 <= j < i ==> features[j].name == t[j].name
      invariant forall j :: 0 <= j < i ==>
        (features[j].featureType == Numerical <==> IsNumericDtype(t[j].dtype))
    {
      if IsNumericDtype(t[i].dtype) {
        features := features + [Feature(t[i].name, Numerical)];
      } else {
        features := features + [Feature(t[i].name, Categorical)];
      }
    }
  }

  /** A table whose columns are all float64 yields only numerical features. */
  method DetectAllFloat(t: Table) returns (features: seq<Feature>)
    requires forall i :: 0 <= i < |t| ==> t[i].dtype == "float64"
    ensures |features| == |t|
    ensures forall i :: 0 <= i < |features| ==> features[i].featureType == Numerical
  {
    features := DetectFeatureTypes(t);
  }

  /** Columns of string (object) dtype yield categorical features. */
  method DetectStrings(t: Table) returns (features: seq<Feature>)
    requires forall i :: 0 <= i < |t| ==> t[i].dtype == "object"
    ensures |features| == |t|
    ensures forall i :: 0 <= i < |features| ==> features[i].featureType == Categorical
  {
    features := DetectFeatureTypes(t);
  }
}
