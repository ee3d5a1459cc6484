/** `preprocess_features`: one transformed column and one transform record per
    feature, returned sorted by feature name. */
module Preprocessing {
  import opened Wrappers
  import opened Dicts
  import opened Strings
  import opened Features

  type Row = seq<real>
  type Matrix = seq<Row>

  /** The hyper-parameters a transformer reports (`get_params()`). */
  type Params = Dict<string, string>

  /** A scikit-learn transformer, left uninterpreted: its reported parameters and,
      for a column reshaped to N×1, row `i` of `fit_transform` of that column. */
  datatype Transformer = Transformer(params: Params, rowOf: (seq<Value>, nat) -> Row)

  /** The one-hot encoder (categorical columns) and the standard scaler (numerical columns). */
  datatype Transformers = Transformers(oneHot: Transformer, scaler: Transformer)

  /** The transform record registered for a feature: `{"type": tag, "encoder"|"scaler": params}`. */
  datatype Record = Record(tag: string, params: Params)

  /** One element of the result: `(feature_name, data, record)`. */
  datatype Processed = Processed(name: string, data: Matrix, record: Record)

  /** `raw[feature.name]` raises `KeyError` for a column the table lacks. */
  datatype PreprocessError = MissingColumn(name: string)

  const OneHotTag := "OneHotEncoder"
  const ScalerTag := "StandardScaler"

  /** `fit_transform(column.reshape(-1, 1))`: one output row per input row. */
  function FitTransform(tr: Transformer, column: seq<Value>): (m: Matrix)
    ensures |m| == |column|
  {
    seq(|column|, i requires 0 <= i < |column| => tr.rowOf(column, i))
  }

  /** The result for one feature whose column is present. */
  function ProcessFeature(f: Feature, column: Column, ts: Transformers): Processed
  {
    match f.featureType
    case Categorical => Processed(f.name, FitTransform(ts.oneHot, column.values), Record(OneHotTag, ts.oneHot.params))
    case Numerical => Processed(f.name, FitTransform(ts.scaler, column.values), Record(ScalerTag, ts.scaler.params))
  }

  predicate AllPresent(features: seq<Feature>, raw: Table)
  {
    forall i :: 0 <= i < |features| ==> Lookup(raw, features[i].name).Some?
  }

  /** The position of the first feature whose column is missing. */
  function FirstMissing(features: seq<Feature>, raw: Table): (i: nat)
    requires !AllPresent(features, raw)
    ensures i < |features| && Lookup(raw, features[i].name).None?
    ensures AllPresent(features[..i], raw)
  {
    if Lookup(raw, features[0].name).None? then 0
    else
      var j := FirstMissing(features[1..], raw);
      ConsPrefix(features, j);
      j + 1
  }

  lemma ConsPrefix<T>(s: seq<T>, j: nat)
    requires j < |s|
    ensures s[..j + 1] == [s[0]] + s[1..][..j]
  {
  }

  /** The per-feature results in feature order, before sorting. */
  function PerFeature(features: seq<Feature>, raw: Table, ts: Transformers): (r: seq<Processed>)
    requires AllPresent(features, raw)
  {
    seq(|features|, i requires 0 <= i < |features| =>
      ProcessFeature(features[i], Lookup(raw, features[i].name).value, ts))
  }

  /** What `preprocess_features(features, raw)` returns or raises. */
  function Preprocessed(features: seq<Feature>, raw: Table, ts: Transformers): Result<seq<Processed>, PreprocessError>
  {
    if AllPresent(features, raw) then Success(SortByName(PerFeature(features, raw, ts)))
    else Failure(MissingColumn(features[FirstMissing(features, raw)].name))
  }

  method PreprocessFeatures(features: seq<Feature>, raw: Table, ts: Transformers)
    returns (r: Result<seq<Processed>, PreprocessError>)
    ensures r == Preprocessed(features, raw, ts)
  {
    var results: seq<Processed> := [];
    for i := 0 to |features|
      invariant AllPresent(features[..i], raw)
      invariant results == PerFeature(features[..i], raw, ts)
    {
      var feature := features[i];
      var column := Lookup(raw, feature.name);
      if column.None? {
        assert !AllPresent(features, raw);
        assert features[..i] == features[..FirstMissing(features, raw)] by {
          PrefixOfFirstMissing(features, raw, i);
        }
        return Failure(MissingColumn(feature.name));
      }
      assert features[..i + 1] == features[..i] + [feature];
      results := results + [ProcessFeature(feature, column.value, ts)];
    }
    assert features[..|features|] == features;
    results := SortByName(results);
    return Success(results);
  }

  lemma PrefixOfFirstMissing(features: seq<Feature>, raw: Table, i: nat)
    requires i < |features| && AllPresent(features[..i], raw) && Lookup(raw, features[i].name).None?
    ensures !AllPresent(features, raw) && FirstMissing(features, raw) == i
  {
    var m := FirstMissing(features, raw);
    assert forall k :: 0 <= k < i ==> features[..i][k] == features[k];
    assert forall k :: 0 <= k < m ==> features[..m][k] == features[k];
  }

  // ----- Python's `sorted(results, key=lambda x: x[0])` -----

  predicate SortedByName(s: seq<Processed>)
  {
    forall i, j :: 0 <= i < j < |s| ==> LessEq(s[i].name, s[j].name)
  }

  /** The elements of `s` named `n`, in order. */
  function WithName(s: seq<Processed>, n: string): seq<Processed>
  {
    if |s| == 0 then [] else (if s[0].name == n then [s[0]] else []) + WithName(s[1..], n)
  }

  /** Place `x` after every element whose name is not greater than its own. */
  function Insert(x: Processed, s: seq<Processed>): (r: seq<Processed>)
    ensures |r| == |s| + 1
  {
    if |s| == 0 then [x]
    else if Less(x.name, s[0].name) then [x] + s
    else [s[0]] + Insert(x, s[1..])
  }

  /** A stable sort by name: insertion of each element, from the first to the last. */
  function SortByName(s: seq<Processed>): seq<Processed>
  {
    if |s| == 0 then [] else Insert(s[|s| - 1], SortByName(s[..|s| - 1]))
  }

  lemma {:induction false} InsertMultiset(x: Processed, s: seq<Processed>)
    ensures multiset(Insert(x, s)) == multiset(s) + multiset{x}
  {
    if |s| > 0 && !Less(x.name, s[0].name) {
      InsertMultiset(x, s[1..]);
      assert s == [s[0]] + s[1..];
    }
  }

  lemma {:induction false} InsertLowerBound(x: Processed, s: seq<Processed>, b: string)
    requires LessEq(b, x.name)
    requires forall j :: 0 <= j < |s| ==> LessEq(b, s[j].name)
    ensures forall j :: 0 <= j < |Insert(x, s)| ==> LessEq(b, Insert(x, s)[j].name)
  {
    if |s| > 0 && !Less(x.name, s[0].name) {
      InsertLowerBound(x, s[1..], b);
    }
  }

  lemma {:induction false} InsertSorted(x: Processed, s: seq<Processed>)
    requires SortedByName(s)
    ensures SortedByName(Insert(x, s))
  {
    if |s| > 0 {
      if Less(x.name, s[0].name) {
        forall j | 0 <= j < |s|
          ensures LessEq(x.name, s[j].name)
        {
          if j > 0 {
            LessEqTransitive(x.name, s[0].name, s[j].name);
          }
        }
      } else {
        NotLessIsLessEq(s[0].name, x.name);
        InsertSorted(x, s[1..]);
        InsertLowerBound(x, s[1..], s[0].name);
      }
    }
  }

  lemma {:induction false} WithNameAppend(a: seq<Processed>, b: seq<Processed>, n: string)
    ensures WithName(a + b, n) == WithName(a, n) + WithName(b, n)
  {
    if |a| > 0 {
      WithNameAppend(a[1..], b, n);
      assert (a + b)[1..] == a[1..] + b;
    } else {
      assert a + b == b;
    }
  }

  lemma {:induction false} NoneNamedBelow(s: seq<Processed>, n: string)
    requires SortedByName(s) && |s| > 0 && Less(n, s[0].name)
    ensures WithName(s, n) == []
  {
    LessIrreflexive(n);
    if |s| > 1 {
      LessEqTransitive(s[0].name, s[0].name, s[1].name);
      if Less(s[0].name, s[1].name) {
        LessTransitive(n, s[0].name, s[1].name);
      }
      NoneNamedBelow(s[1..], n);
    }
  }

  lemma WithNameCons(y: Processed, s: seq<Processed>, n: string)
    ensures WithName([y] + s, n) == (if y.name == n then [y] else []) + WithName(s, n)
  {
    assert ([y] + s)[1..] == s;
  }

  /** Inserting `x` into a sorted sequence puts it after every element with its name. */
  lemma {:induction false} InsertWithName(x: Processed, s: seq<Processed>, n: string)
    requires SortedByName(s)
    ensures WithName(Insert(x, s), n) == WithName(s, n) + (if x.name == n then [x] else [])
  {
    if |s| == 0 {
      WithNameCons(x, [], n);
    } else if Less(x.name, s[0].name) {
      WithNameCons(x, s, n);
      if x.name == n {
        NoneNamedBelow(s, n);
      }
    } else {
      var rest := s[1..];
      assert SortedByName(rest);
      InsertWithName(x, rest, n);
      WithNameCons(s[0], Insert(x, rest), n);
      WithNameCons(s[0], rest, n);
      assert s == [s[0]] + rest;
      var h := if s[0].name == n then [s[0]] else [];
      var xs := if x.name == n then [x] else [];
      assert WithName(Insert(x, s), n) == h + (WithName(rest, n) + xs);
      assert h + (WithName(rest, n) + xs) == (h + WithName(rest, n)) + xs;
    }
  }

  /** The sort orders by name, is stable (elements with one name keep their
      order) and is a permutation. */
  lemma SortByNameSpec(s: seq<Processed>)
    ensures |SortByName(s)| == |s|
    ensures SortedByName(SortByName(s))
    ensures forall n :: WithName(SortByName(s), n) == WithName(s, n)
    ensures multiset(SortByName(s)) == multiset(s)
  {
    SortByNameSorted(s);
    SortByNameStable(s);
    SortByNamePermutes(s);
  }

  lemma {:induction false} SortByNameSorted(s: seq<Processed>)
    ensures |SortByName(s)| == |s|
    ensures SortedByName(SortByName(s))
  {
    if |s| > 0 {
      var init, x := s[..|s| - 1], s[|s| - 1];
      SortByNameSorted(init);
      InsertSorted(x, SortByName(init));
    }
  }

  lemma {:induction false} SortByNamePermutes(s: seq<Processed>)
    ensures multiset(SortByName(s)) == multiset(s)
  {
    if |s| > 0 {
      var init, x := s[..|s| - 1], s[|s| - 1];
      SortByNamePermutes(init);
      InsertMultiset(x, SortByName(init));
      MultisetSnoc(s);
    }
  }

  lemma MultisetSnoc<T>(s: seq<T>)
    requires |s| > 0
    ensures multiset(s) == multiset(s[..|s| - 1]) + multiset{s[|s| - 1]}
  {
    assert s == s[..|s| - 1] + [s[|s| - 1]];
  }

  lemma {:induction false} SortByNameStable(s: seq<Processed>)
    ensures forall n :: WithName(SortByName(s), n) == WithName(s, n)
  {
    if |s| > 0 {
      var init, x := s[..|s| - 1], s[|s| - 1];
      SortByNameSorted(init);
      SortByNameStable(init);
      assert s == init + [x];
      forall n
        ensures WithName(SortByName(s), n) == WithName(s, n)
      {
        InsertStable(x, init, n);
      }
    }
  }

  /** One insertion step of the sort keeps the elements of each name in order. */
  lemma InsertStable(x: Processed, init: seq<Processed>, n: string)
    requires SortedByName(SortByName(init)) && WithName(SortByName(init), n) == WithName(init, n)
    ensures WithName(Insert(x, SortByName(init)), n) == WithName(init + [x], n)
  {
    InsertWithName(x, SortByName(init), n);
    WithNameAppend(init, [x], n);
    WithNameCons(x, [], n);
    assert [x] + [] == [x];
  }

  /** `p` is a result for feature `f` of a table with `rows` rows: it carries the
      feature's name, the record tag of its type and one row per table row. */
  predicate ResultOf(p: Processed, f: Feature, rows: nat)
  {
    && p.name == f.name
    && (p.record.tag == OneHotTag <==> f.featureType == Categorical)
    && (p.record.tag == ScalerTag <==> f.featureType == Numerical)
    && |p.data| == rows
  }

  /** What preprocessing returns: one result per feature, in sorted name order,
      stable for equal names, a permutation of the per-feature results; each
      result carries its feature's name, the record tag of its type and one row
      per table row. */
  lemma PreprocessedSpec(features: seq<Feature>, raw: Table, ts: Transformers, rows: nat)
    requires Rectangular(raw, rows)
    ensures Preprocessed(features, raw, ts).Success? <==> AllPresent(features, raw)
    ensures Preprocessed(features, raw, ts).Success? ==>
      var r := Preprocessed(features, raw, ts).value;
      && |r| == |features|
      && SortedByName(r)
      && (forall n :: WithName(r, n) == WithName(PerFeature(features, raw, ts), n))
      && multiset(r) == multiset(PerFeature(features, raw, ts))
      && forall p :: p in r ==> exists i :: 0 <= i < |features| && ResultOf(p, features[i], rows)
  {
    if AllPresent(features, raw) {
      var per := PerFeature(features, raw, ts);
      SortByNameSpec(per);
      var r := SortByName(per);
      forall p | p in r
        ensures exists i :: 0 <= i < |features| && ResultOf(p, features[i], rows)
      {
        assert p in multiset(per);
        var i :| 0 <= i < |per| && per[i] == p;
        var column := Lookup(raw, features[i].name).value;
        assert |column.values| == rows;
        assert ResultOf(p, features[i], rows);
      }
    }
  }
}
