/** src/noLogTest.js: the sum of two numbers plus 6. */
module NoLogTest {
  import opened JsValues
  import Helper
  import AddTwoService

  /** `noLogTest(a, b)`. The logging of the arguments is not modelled. */
  function NoLogTest(a: int, b: int): (r: int) {
    a + b + 6
  }

  /** `noLogTest` is six more than the guarded sum of the helpers. */
  lemma NoLogTestIsGuardedSumPlusSix(a: int, b: int)
    ensures Helper.CalculateSum(JsNumber(a), JsNumber(b)) == Ok(NoLogTest(a, b) - 6)
  {
  }

  /** The value the module logs when it is loaded. */
  lemma NoLogTestOnLoad()
    ensures NoLogTest(1, 2) == 9
  {
  }

  lemma NoLogTestCommutative(a: int, b: int)
    ensures NoLogTest(a, b) == NoLogTest(b, a)
  {
  }

  /** The two fixed-offset adders differ by four on every input. */
  lemma NoLogTestIsAddTwoPlusFour(a: int, b: int)
    ensures NoLogTest(a, b) == AddTwoService.AddTwo(a, b) + 4
  {
  }
}
