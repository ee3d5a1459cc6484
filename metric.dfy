/** The metric registry (`get_metric`) and the two metrics over exact reals. */
module Metrics {
  import opened Wrappers
  import opened Strings

  /** The registered metric names. */
  const METRICS: seq<string> := ["mean_squared_error", "accuracy"]

  /** The metric classes the module defines. */
  datatype MetricKind = MeanSquaredError | Accuracy

  datatype MetricError =
    | Misspelt(name: string)         // ValueError: the name is not registered
    | NotImplemented(name: string)   // NotImplementedError: registered, but no class of that name

  /** The words of `name`, each capitalised, joined with nothing between them. */
  function ClassName(name: string): string
  {
    CapitalizedConcat(Split(name, '_'))
  }

  function CapitalizedConcat(words: seq<string>): (r: string)
    ensures |r| == Length(words)
  {
    if |words| == 0 then "" else Capitalize(words[0]) + CapitalizedConcat(words[1..])
  }

  function Length(words: seq<string>): nat
  {
    if |words| == 0 then 0 else |words[0]| + Length(words[1..])
  }

  /** The module-level lookup of a class by its name. */
  function ClassNamed(className: string): Option<MetricKind>
  {
    if className == "MeanSquaredError" then Some(MeanSquaredError)
    else if className == "Accuracy" then Some(Accuracy)
    else None
  }

  function GetMetric(name: string): Result<MetricKind, MetricError>
  {
    if name in METRICS then
      match ClassNamed(ClassName(name))
      case Some(kind) => Success(kind)
      case None => Failure(NotImplemented(name))
    else Failure(Misspelt(name))
  }

  lemma AccuracyName()
    ensures ClassName("accuracy") == "Accuracy"
  {
    var a := "accuracy";
    assert '_' !in a by {
      assert forall i :: 0 <= i < |a| ==> a[i] != '_';
    }
    ClassNameOne(a);
    CapitalizedAccuracy();
  }

  /** A name without '_' is one word. */
  lemma ClassNameOne(a: string)
    requires '_' !in a
    ensures ClassName(a) == Capitalize(a)
  {
    NoSeparatorSplit(a, '_');
    assert [a][1..] == [];
    assert CapitalizedConcat([a]) == Capitalize(a) + "";
  }

  lemma CapitalizedAccuracy()
    ensures Capitalize("accuracy") == "Accuracy"
  {
    var w := "accuracy";
    CapitalizeWord(w);
    assert w[1..] == "ccuracy";
  }

  lemma MeanSquaredErrorName()
    ensures ClassName("mean_squared_error") == "MeanSquaredError"
  {
    var a, b, c := "mean", "squared", "error";
    assert '_' !in a && '_' !in b && '_' !in c by {
      assert forall i :: 0 <= i < |a| ==> a[i] != '_';
      assert forall i :: 0 <= i < |b| ==> b[i] != '_';
      assert forall i :: 0 <= i < |c| ==> c[i] != '_';
    }
    assert "mean_squared_error" == a + ['_'] + b + ['_'] + c;
    ClassNameThree(a, b, c);
    CapitalizedWords();
  }

  lemma CapitalizedWords()
    ensures Capitalize("mean") + Capitalize("squared") + Capitalize("error") == "MeanSquaredError"
  {
    CapitalizedMean();
    CapitalizedSquared();
    CapitalizedError();
    JoinedWords();
  }

  lemma JoinedWords()
    ensures "Mean" + "Squared" + "Error" == "MeanSquaredError"
  {
    assert "Mean" + "Squared" == "MeanSquared";
  }

  lemma CapitalizedMean()
    ensures Capitalize("mean") == "Mean"
  {
    var w := "mean";
    CapitalizeWord(w);
    assert w[1..] == "ean";
  }

  lemma CapitalizedSquared()
    ensures Capitalize("squared") == "Squared"
  {
    var w := "squared";
    CapitalizeWord(w);
    assert w[1..] == "quared";
  }

  lemma CapitalizedError()
    ensures Capitalize("error") == "Error"
  {
    var w := "error";
    CapitalizeWord(w);
    assert w[1..] == "rror";
  }

  lemma ClassNameThree(a: string, b: string, c: string)
    requires '_' !in a && '_' !in b && '_' !in c
    ensures ClassName(a + ['_'] + b + ['_'] + c) == Capitalize(a) + Capitalize(b) + Capitalize(c)
  {
    SplitThree(a, b, c);
    ConcatThree(a, b, c);
  }

  lemma SplitThree(a: string, b: string, c: string)
    requires '_' !in a && '_' !in b && '_' !in c
    ensures Split(a + ['_'] + b + ['_'] + c, '_') == [a, b, c]
  {
    NoSeparatorSplit(c, '_');
    SplitPrefix(b, c, '_');
    SplitPrefix(a, b + ['_'] + c, '_');
    assert a + ['_'] + b + ['_'] + c == a + ['_'] + (b + ['_'] + c);
  }

  lemma ConcatThree(a: string, b: string, c: string)
    ensures CapitalizedConcat([a, b, c]) == Capitalize(a) + Capitalize(b) + Capitalize(c)
  {
    assert [a, b, c][1..] == [b, c];
    assert [b, c][1..] == [c];
    assert [c][1..] == [];
    assert CapitalizedConcat([c]) == Capitalize(c) + "";
    assert Capitalize(c) + "" == Capitalize(c);
    assert CapitalizedConcat([b, c]) == Capitalize(b) + Capitalize(c);
  }

  /** The class name drops every '_' of the metric name and keeps every other character. */
  lemma {:induction false} ClassNameShape(name: string)
    ensures '_' !in ClassName(name)
    ensures |ClassName(name)| + Count(name, '_') == |name|
  {
    WordsLength(name);
    NoUnderscore(Split(name, '_'));
  }

  lemma {:induction false} NoUnderscore(words: seq<string>)
    requires forall i :: 0 <= i < |words| ==> '_' !in words[i]
    ensures '_' !in CapitalizedConcat(words)
  {
    if |words| > 0 {
      NoUnderscore(words[1..]);
      var c := Capitalize(words[0]);
      forall i | 0 <= i < |c|
        ensures c[i] != '_'
      {
        assert words[0][i] != '_';
      }
    }
  }

  lemma {:induction false} WordsLength(s: string)
    ensures Length(Split(s, '_')) + Count(s, '_') == |s|
  {
    if '_' in s {
      var i :| 0 <= i < |s| && s[i] == '_';
      var j := IndexOf(s, '_').value;
      var p, t := s[..j], s[j + 1..];
      assert s == p + ['_'] + t;
      SplitPrefix(p, t, '_');
      WordsLength(t);
      CountAppend(p, ['_'] + t, '_');
      CountAppend(['_'], t, '_');
      CountAbsent(p, '_');
      assert Split(s, '_')[1..] == Split(t, '_');
    } else {
      NoSeparatorSplit(s, '_');
      CountAbsent(s, '_');
      assert Split(s, '_')[1..] == [];
    }
  }

  lemma {:induction false} CountAppend(a: string, b: string, c: char)
    ensures Count(a + b, c) == Count(a, c) + Count(b, c)
  {
    if |a| > 0 {
      assert (a + b)[1..] == a[1..] + b;
      CountAppend(a[1..], b, c);
    } else {
      assert a + b == b;
    }
  }

  lemma {:induction false} CountAbsent(s: string, c: char)
    requires c !in s
    ensures Count(s, c) == 0
  {
    if |s| > 0 {
      assert c !in s[1..];
      CountAbsent(s[1..], c);
    }
  }

  /** Only registered names succeed; an unregistered name is reported as misspelt,
      and, both classes being defined, NotImplementedError never occurs. */
  lemma GetMetricSpec(name: string)
    ensures GetMetric(name).Success? <==> name in METRICS
    ensures GetMetric(name).Failure? ==> GetMetric(name) == Failure(Misspelt(name))
    ensures name == "mean_squared_error" ==> GetMetric(name) == Success(MeanSquaredError)
    ensures name == "accuracy" ==> GetMetric(name) == Success(Accuracy)
  {
    if name == "mean_squared_error" {
      MeanSquaredErrorName();
    } else if name == "accuracy" {
      AccuracyName();
    } else {
      assert name !in METRICS;
    }
  }

  // ----- The metrics. `None` stands for the NaN numpy returns for empty arrays. -----

  function CountEqual<T(==)>(truth: seq<T>, pred: seq<T>): nat
    requires |truth| == |pred|
  {
    if |truth| == 0 then 0
    else (if truth[0] == pred[0] then 1 else 0) + CountEqual(truth[1..], pred[1..])
  }

  /** `x * y`, with the signs of the product spelled out. */
  function Product(x: real, y: real): (r: real)
    ensures x > 0.0 && y > 0.0 ==> r > 0.0
    ensures x < 0.0 && y < 0.0 ==> r > 0.0
    ensures x == 0.0 ==> r == 0.0
  {
    x * y
  }

  function SumSquares(truth: seq<real>, pred: seq<real>): real
    requires |truth| == |pred|
  {
    if |truth| == 0 then 0.0
    else Product(truth[0] - pred[0], truth[0] - pred[0]) + SumSquares(truth[1..], pred[1..])
  }

  /** `np.mean(truth == pred)`. */
  function AccuracyScore<T(==)>(truth: seq<T>, pred: seq<T>): Option<real>
    requires |truth| == |pred|
  {
    if |truth| == 0 then None else Some(CountEqual(truth, pred) as real / |truth| as real)
  }

  /** `np.mean((truth - pred) ** 2)`. */
  function MeanSquaredErrorScore(truth: seq<real>, pred: seq<real>): Option<real>
    requires |truth| == |pred|
  {
    if |truth| == 0 then None else Some(SumSquares(truth, pred) / |truth| as real)
  }

  lemma {:induction false} CountEqualBounds<T>(truth: seq<T>, pred: seq<T>)
    requires |truth| == |pred|
    ensures CountEqual(truth, pred) <= |truth|
    ensures CountEqual(truth, pred) == |truth| <==> truth == pred
  {
    if |truth| > 0 {
      CountEqualBounds(truth[1..], pred[1..]);
      if truth[1..] == pred[1..] && truth[0] == pred[0] {
        assert truth == [truth[0]] + truth[1..];
        assert pred == [pred[0]] + pred[1..];
      }
    }
  }

  lemma {:induction false} SumSquaresZero(truth: seq<real>, pred: seq<real>)
    requires |truth| == |pred|
    ensures SumSquares(truth, pred) >= 0.0
    ensures SumSquares(truth, pred) == 0.0 <==> truth == pred
  {
    if |truth| > 0 {
      SumSquaresZero(truth[1..], pred[1..]);
      assert truth == [truth[0]] + truth[1..];
      assert pred == [pred[0]] + pred[1..];
    }
  }

  lemma RatioAtMostOne(c: real, n: real)
    requires 0.0 <= c <= n && n > 0.0
    ensures 0.0 <= c / n <= 1.0
  {
    var q := c / n;
    assert q * n == c;
  }

  /** Accuracy lies in [0, 1] and is 1 exactly when prediction equals truth. */
  lemma AccuracySpec<T>(truth: seq<T>, pred: seq<T>)
    requires |truth| == |pred| && |truth| > 0
    ensures AccuracyScore(truth, pred).Some?
    ensures 0.0 <= AccuracyScore(truth, pred).value <= 1.0
    ensures AccuracyScore(truth, pred).value == 1.0 <==> truth == pred
  {
    CountEqualBounds(truth, pred);
    RatioAtMostOne(CountEqual(truth, pred) as real, |truth| as real);
  }

  /** The mean squared error is non-negative and is 0 exactly when prediction equals truth. */
  lemma MeanSquaredErrorSpec(truth: seq<real>, pred: seq<real>)
    requires |truth| == |pred| && |truth| > 0
    ensures MeanSquaredErrorScore(truth, pred).Some?
    ensures MeanSquaredErrorScore(truth, pred).value >= 0.0
    ensures MeanSquaredErrorScore(truth, pred).value == 0.0 <==> truth == pred
  {
    SumSquaresZero(truth, pred);
  }
}
