/** `MultipleLogisticRegressor`: the hyper-parameter validation of the
    logistic regression wrapper and the parameters its `fit` records. */
module Logistic {
  import opened Wrappers
  import opened Dicts
  import opened PyValues

  const Penalties := ["l1", "l2", "elasticnet", "none"]
  const DefaultC := PyFloat(1.0)
  const DefaultPenalty := PyStr("l2")

  datatype LogisticParameters = LogisticParameters(c: PyValue, penalty: PyValue)

  predicate ValidC(c: PyValue)
  {
    c.PyFloat? && c.f > 0.0
  }

  predicate Valid(p: LogisticParameters)
  {
    ValidC(p.c) && InStrings(p.penalty, Penalties)
  }

  /** `validate_parameters(C, penalty)`: each check in turn replaces a wrong
      value by its default. */
  function ValidateParameters(p: LogisticParameters): (r: LogisticParameters)
    ensures r.c.PyFloat? && r.c.f > 0.0
    ensures InStrings(r.penalty, Penalties)
    ensures ValidC(p.c) ==> r.c == p.c
    ensures !ValidC(p.c) ==> r.c == DefaultC
    ensures InStrings(p.penalty, Penalties) ==> r.penalty == p.penalty
    ensures !InStrings(p.penalty, Penalties) ==> r.penalty == DefaultPenalty
  {
    var c := if !IsFloat(p.c) then DefaultC else p.c;
    var c := if c.f <= 0.0 then DefaultC else c;
    var penalty := if !InStrings(p.penalty, Penalties) then DefaultPenalty else p.penalty;
    LogisticParameters(c, penalty)
  }

  /** Exactly the valid parameters pass unchanged, so validating twice is
      validating once. */
  lemma ValidateFixes(p: LogisticParameters)
    ensures ValidateParameters(p) == p <==> Valid(p)
    ensures ValidateParameters(ValidateParameters(p)) == ValidateParameters(p)
  {
    var r := ValidateParameters(p);
    assert Valid(r);
  }

  /** Each parameter is corrected on its own: a bad `C` never changes the
      penalty, and a bad penalty never changes `C`. */
  lemma ValidateIndependent(p: LogisticParameters, q: LogisticParameters)
    ensures p.c == q.c ==> ValidateParameters(p).c == ValidateParameters(q).c
    ensures p.penalty == q.penalty ==> ValidateParameters(p).penalty == ValidateParameters(q).penalty
  {
  }

  /** The constructor's defaults are valid. */
  lemma DefaultsValid()
    ensures Valid(LogisticParameters(DefaultC, DefaultPenalty))
  {
  }

  type Array = seq<seq<real>>

  class MultipleLogisticRegressor {
    const parameters: LogisticParameters
    /** `_parameters`, which `fit` replaces. */
    var fitted: Dict<string, Array>

    /** `MultipleLogisticRegressor(C, penalty)`: the model is built with the
        validated parameters. */
    constructor (c: PyValue, penalty: PyValue)
      ensures parameters == ValidateParameters(LogisticParameters(c, penalty))
      ensures Valid(parameters) && fitted == []
    {
      parameters := ValidateParameters(LogisticParameters(c, penalty));
      fitted := [];
    }

    /** `fit`: exactly the coefficients and the intercept. */
    method Fit(coef: Array, intercept: Array)
      modifies this
      ensures Keys(fitted) == ["_coef", "_intercept"]
      ensures Get(fitted, "_coef") == Some(coef) && Get(fitted, "_intercept") == Some(intercept)
    {
      fitted := [("_coef", coef), ("_intercept", intercept)];
    }
  }
}
