/** src/services/addTwoService.js: the sum of two numbers plus 2. */
module AddTwoService {
  import opened JsValues
  import Helper

  /** `addTwo(a, b)`. The logging of the arguments is not modelled. */
  function AddTwo(a: int, b: int): (r: int) {
    a + b + 2
  }

  /** `addTwo` is two more than the guarded sum of the helpers. */
  lemma AddTwoIsGuardedSumPlusTwo(a: int, b: int)
    ensures Helper.CalculateSum(JsNumber(a), JsNumber(b)) == Ok(AddTwo(a, b) - 2)
  {
  }

  /** The value the module logs when it is loaded. */
  lemma AddTwoOnLoad()
    ensures AddTwo(1, 2) == 5
  {
  }

  lemma AddTwoCommutative(a: int, b: int)
    ensures AddTwo(a, b) == AddTwo(b, a)
  {
  }

  /** Raising either argument raises the result. */
  lemma AddTwoStrictlyIncreasing(a: int, a': int, b: int)
    requires a < a'
    ensures AddTwo(a, b) < AddTwo(a', b)
    ensures AddTwo(b, a) < AddTwo(b, a')
  {
  }
}
