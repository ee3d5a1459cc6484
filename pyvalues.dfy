/** The dynamically typed values the hyper-parameter validators are handed. */
module PyValues {

  datatype PyValue = PyNone | PyBool(b: bool) | PyInt(i: int) | PyFloat(f: real) | PyStr(s: string)

  /** `isinstance(v, int)`: `bool` is a subclass of `int`. */
  predicate IsInt(v: PyValue)
  {
    v.PyInt? || v.PyBool?
  }

  /** `isinstance(v, float)`. */
  predicate IsFloat(v: PyValue)
  {
    v.PyFloat?
  }

  /** The integer an `int` (or `bool`) stands for in arithmetic and comparisons. */
  function IntValue(v: PyValue): (n: int)
    requires IsInt(v)
    ensures v.PyBool? ==> n == (if v.b then 1 else 0)
    ensures v.PyInt? ==> n == v.i
  {
    match v
    case PyInt(i) => i
    case PyBool(b) => if b then 1 else 0
  }

  /** `v in options` for a list of strings: only a string equal to one of them is in it. */
  predicate InStrings(v: PyValue, options: seq<string>)
  {
    v.PyStr? && v.s in options
  }
}
