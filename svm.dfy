/** `SVMClassifier`: the hyper-parameter validation of the support vector
    machine wrapper and the parameters its `fit` records. */
module Svm {
  import opened Wrappers
  import opened Dicts
  import opened PyValues

  const Kernels := ["linear", "poly", "rbf", "sigmoid"]
  const DefaultC := PyFloat(1.0)
  const DefaultKernel := PyStr("rbf")
  const DefaultDegree := PyInt(3)
  const DefaultGamma := PyStr("scale")

  datatype SvmParameters = SvmParameters(c: PyValue, kernel: PyValue, degree: PyValue, gamma: PyValue)

  /** What each check accepts unchanged. */
  predicate ValidC(c: PyValue)
  {
    c.PyFloat? && c.f > 0.0
  }

  predicate ValidDegree(degree: PyValue)
  {
    IsInt(degree) && IntValue(degree) > 0
  }

  predicate Valid(p: SvmParameters)
  {
    ValidC(p.c) && InStrings(p.kernel, Kernels) && ValidDegree(p.degree) && p.gamma == DefaultGamma
  }

  /** `validate_parameters(C, kernel, degree, gamma)`: each check in turn
      replaces a wrong value by its default. */
  function ValidateParameters(p: SvmParameters): (r: SvmParameters)
    ensures r.c.PyFloat? && r.c.f > 0.0
    ensures InStrings(r.kernel, Kernels)
    ensures IsInt(r.degree) && IntValue(r.degree) > 0
    ensures r.gamma == PyStr("scale")
    ensures ValidC(p.c) ==> r.c == p.c
    ensures !ValidC(p.c) ==> r.c == DefaultC
    ensures InStrings(p.kernel, Kernels) ==> r.kernel == p.kernel
    ensures !InStrings(p.kernel, Kernels) ==> r.kernel == DefaultKernel
    ensures ValidDegree(p.degree) ==> r.degree == p.degree
    ensures !ValidDegree(p.degree) ==> r.degree == DefaultDegree
  {
    var c := if !IsFloat(p.c) then DefaultC else p.c;
    var c := if c.f <= 0.0 then DefaultC else c;
    var kernel := if !InStrings(p.kernel, Kernels) then DefaultKernel else p.kernel;
    var degree := if !IsInt(p.degree) then DefaultDegree else p.degree;
    var degree := if IntValue(degree) <= 0 then DefaultDegree else degree;
    var gamma := if p.gamma != PyStr("scale") then DefaultGamma else p.gamma;
    SvmParameters(c, kernel, degree, gamma)
  }

  /** Exactly the valid parameters pass unchanged, so validating twice is
      validating once. */
  lemma ValidateFixes(p: SvmParameters)
    ensures ValidateParameters(p) == p <==> Valid(p)
    ensures ValidateParameters(ValidateParameters(p)) == ValidateParameters(p)
  {
    var r := ValidateParameters(p);
    assert Valid(r);
  }

  /** Each parameter is corrected on its own: an output depends only on the
      input of the same name. */
  lemma ValidateIndependent(p: SvmParameters, q: SvmParameters)
    ensures p.c == q.c ==> ValidateParameters(p).c == ValidateParameters(q).c
    ensures p.kernel == q.kernel ==> ValidateParameters(p).kernel == ValidateParameters(q).kernel
    ensures p.degree == q.degree ==> ValidateParameters(p).degree == ValidateParameters(q).degree
  {
  }

  /** The constructor's defaults are valid. An integer `C` is not a float and
      is replaced; `True` is an integer and is kept as a degree. */
  lemma ValidateCases()
    ensures Valid(SvmParameters(DefaultC, DefaultKernel, DefaultDegree, DefaultGamma))
    ensures ValidateParameters(SvmParameters(PyInt(5), DefaultKernel, DefaultDegree, DefaultGamma)).c == DefaultC
    ensures ValidateParameters(SvmParameters(DefaultC, DefaultKernel, PyBool(true), DefaultGamma)).degree == PyBool(true)
  {
  }

  /** The fitted attributes scikit-learn exposes, left abstract. */
  type Array = seq<seq<real>>

  datatype Fitted = Fitted(
    intercept: Array, support: Array, supportVectors: Array, nSupport: Array,
    dualCoef: Array, classes: Array, coef: Array)

  const FixedKeys := ["_intercept", "_support", "_support_vectors", "_n_support", "_dual_coef", "_classes"]

  /** The attributes `fit` records for every kernel: six distinct keys, none of
      them `_coef`, each holding the fitted model's attribute of that name. */
  function FixedAttributes(model: Fitted): (d: Dict<string, Array>)
    ensures Keys(d) == FixedKeys && UniqueKeys(d)
    ensures FixedValues(d, model)
    ensures Get(d, "_coef") == None
  {
    var d := [
      ("_intercept", model.intercept), ("_support", model.support),
      ("_support_vectors", model.supportVectors), ("_n_support", model.nSupport),
      ("_dual_coef", model.dualCoef), ("_classes", model.classes)];
    assert Keys(d) == FixedKeys by {
      assert forall i :: 0 <= i < 6 ==> Keys(d)[i] == FixedKeys[i];
    }
    FixedKeysDistinct();
    GetMissing(d, "_coef");
    GetItem(d, 0); GetItem(d, 1); GetItem(d, 2); GetItem(d, 3); GetItem(d, 4); GetItem(d, 5);
    d
  }

  /** Each fixed key of `d` holds the fitted model's attribute of that name. */
  predicate FixedValues(d: Dict<string, Array>, model: Fitted)
  {
    && Get(d, "_intercept") == Some(model.intercept)
    && Get(d, "_support") == Some(model.support)
    && Get(d, "_support_vectors") == Some(model.supportVectors)
    && Get(d, "_n_support") == Some(model.nSupport)
    && Get(d, "_dual_coef") == Some(model.dualCoef)
    && Get(d, "_classes") == Some(model.classes)
  }

  /** The six fixed keys are pairwise distinct and do not include `_coef`. */
  lemma FixedKeysDistinct()
    ensures forall i, j :: 0 <= i < j < |FixedKeys| ==> FixedKeys[i] != FixedKeys[j]
    ensures "_coef" !in FixedKeys
  {
    var k := FixedKeys;
    assert |k[0]| == 10 && |k[1]| == 8 && |k[2]| == 16 && |k[3]| == 10 && |k[4]| == 10 && |k[5]| == 8;
    assert k[0][1] != k[3][1] && k[0][1] != k[4][1] && k[3][1] != k[4][1] && k[1][1] != k[5][1];
  }

  class SvmClassifier {
    const parameters: SvmParameters
    /** `_parameters`, which `fit` replaces. */
    var fitted: Dict<string, Array>

    /** `SVMClassifier(C, kernel, degree, gamma)`: the model is built with the
        validated parameters. */
    constructor (c: PyValue, kernel: PyValue, degree: PyValue, gamma: PyValue)
      ensures parameters == ValidateParameters(SvmParameters(c, kernel, degree, gamma))
      ensures Valid(parameters) && fitted == []
    {
      parameters := ValidateParameters(SvmParameters(c, kernel, degree, gamma));
      fitted := [];
    }

    /** `fit`: the six fixed attributes in order, then `_coef` only for the
        linear kernel. */
    method Fit(model: Fitted)
      modifies this
      ensures Keys(fitted) == FixedKeys + (if parameters.kernel == PyStr("linear") then ["_coef"] else [])
      ensures UniqueKeys(fitted)
      ensures fitted == FixedAttributes(model) + (if parameters.kernel == PyStr("linear") then [("_coef", model.coef)] else [])
      ensures FixedValues(fitted, model)
      ensures parameters.kernel == PyStr("linear") <==> Get(fitted, "_coef") == Some(model.coef)
      ensures parameters.kernel != PyStr("linear") ==> Get(fitted, "_coef") == None
    {
      fitted := FixedAttributes(model);
      if parameters.kernel == PyStr("linear") {
        SetSpec(fitted, "_coef", model.coef);
        assert "_coef" !in FixedKeys by {
          FixedKeysDistinct();
        }
        fitted := Set(fitted, "_coef", model.coef);
      }
    }
  }
}
