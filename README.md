# project-sync-script helpers in Dafny

This project models the small behavioural core of the `project-sync-script`
JavaScript repository and proves facts about it:

- `src/utils/helper.js`: `calculateSum`, a sum that throws unless both
  arguments are numbers; `formatMessage`, which throws unless its argument is
  a string and otherwise frames it as `========== message ==========`; and
  `validateEmail`, which tests the regular expression
  `^[^\s@]+@[^\s@]+\.[^\s@]+$`.
- `src/services/addTwoService.js` and `src/noLogTest.js`: the adders
  `addTwo(a, b) = a + b + 2` and `noLogTest(a, b) = a + b + 6`.
- `src/utils/point.js`: the `Point` constructor. It stores `x`, `y` and `z`,
  and `z` defaults to 0.

Modules, one per source file plus two for the JavaScript semantics they rely on:

- `JsValues` (`js_values.dfy`) has a tagged JavaScript value, `typeof`, the
  default-parameter rule, and thrown errors as a `Result`. Numbers are
  mathematical integers.
- `JsRegex` (`js_regex.dfy`) covers the fragment of ECMAScript regular
  expressions that the validator uses. That is literals, `[^...]` classes
  with `\s`, and `+`, all under `^...$`. `Matches` is a backtracking matcher
  over that fragment.
- `Helper` (`helper.dfy`) models `calculateSum`, `formatMessage` and
  `validateEmail`. `ValidateEmail` runs the matcher on the literal pattern.
  Its contract restates the pattern as a plain predicate, `IsPlainEmail`:
  - no whitespace;
  - exactly one `@`;
  - a non-empty part before the `@`;
  - after the `@`, a domain with a `.` that is neither its first nor its last character.
  
  `EmailPatternMeaning` proves that the two agree on every string.
- `AddTwoService` (`add_two_service.dfy`) and `NoLogTest` (`no_log_test.dfy`)
  model the two adders.
- `Points` (`point.dfy`) has the class `Point`. Its constructor assigns the
  three fields.

`\s` is the set of ECMAScript WhiteSpace and LineTerminator code points
(sections 12.2 and 12.3 of ECMA-262): TAB, LF, VT, FF, CR, SPACE, NBSP,
U+1680, U+2000 to U+200A, LS, PS, U+202F, U+205F, U+3000 and ZWNBSP.
JavaScript strings are UTF-16, while Dafny `char` is a Unicode scalar value.
None of the characters this regex cares about (`@`, `.`, `\s`) is a surrogate.
So a character outside the BMP belongs to `[^\s@]` exactly when both of its
UTF-16 halves do. On every string the model can represent, the model and the
program give the same answer.

The hook files (`hooks2`, `hooks3`, `forsetHooks`, `targets`) look as if
they sum their callees, but as written each one throws before returning, so
the model leaves them out (see below).

## Model

| member | source | states |
|---|---|---|
| `JsValues.TypeOf` | src/utils/helper.js:11 | `typeof v` is "number" exactly for numbers, "string" exactly for strings, and "object" exactly for null and objects |
| `Helper.CalculateSum` | src/utils/helper.js:10-15 | throws exactly when either argument is not a number, with the "arguments must be numbers" message; otherwise returns the sum of the two numbers |
| `Helper.CalculateSumCommutative` | src/utils/helper.js:11-14 | swapping the arguments changes neither the sum nor the error |
| `Helper.CalculateSumOfEntryPoint` | src/main.js:19 | `calculateSum(10, 20)` returns 30 |
| `Helper.FormatMessage` | src/utils/helper.js:23-28 | throws exactly when the argument is not a string, with the "argument must be a string" message; otherwise the result starts with `"========== "`, ends with `" =========="`, is 22 characters longer than the message, and holds the message in between |
| `Helper.StripFences` | src/utils/helper.js:27 | the inverse of formatting: it succeeds exactly on strings of length at least 22 that carry both fences, and then the string is the opening fence, the result and the closing fence |
| `Helper.StripFormatted` | src/utils/helper.js:27 | formatting a string succeeds, and removing the fences of the result gives the string back |
| `Helper.FormatStripped` | src/utils/helper.js:27 | every fenced string is the formatting of its middle |
| `Helper.FormatMessageInjective` | src/utils/helper.js:27 | two arguments with the same successful formatting are equal |
| `Helper.ValidateEmail` | src/utils/helper.js:35-38 | the regex test accepts a string exactly when it satisfies the plain predicate: no whitespace, exactly one `@`, a non-empty local part, and a domain with a `.` that is neither its first nor its last character |
| `Helper.AddressClassMeaning` | src/utils/helper.js:36 | the class `[^\s@]` accepts exactly the characters that are neither whitespace nor `@` |
| `Helper.AllInAddressClass` | src/utils/helper.js:36 | a string is made of `[^\s@]` characters exactly when it has no whitespace and no `@` |
| `Helper.SuffixMeaning` | src/utils/helper.js:36 | `^[^\s@]+$` matches exactly the non-empty strings of `[^\s@]` characters |
| `Helper.DomainMeaning` | src/utils/helper.js:36 | `^[^\s@]+\.[^\s@]+$` matches exactly the strings of `[^\s@]` characters with a `.` that is neither first nor last |
| `Helper.EmailPatternSplit` | src/utils/helper.js:36 | the whole pattern matches exactly when the string splits at an `@` after a non-empty `[^\s@]+` prefix, followed by a domain the domain pattern matches |
| `Helper.PlainEmailSplits` | src/utils/helper.js:36 | a string satisfying the plain predicate splits at its first `@` into an `@`-free, whitespace-free local part and domain |
| `Helper.SplitIsPlainEmail` | src/utils/helper.js:36 | any such split satisfies the plain predicate |
| `Helper.EmailPatternMeaning` | src/utils/helper.js:36 | the regular expression matches a string if and only if the string satisfies the plain predicate |
| `Helper.ValidEmailLength` | src/utils/helper.js:36-37 | every accepted address has at least 5 characters |
| `Helper.AcceptedWhenSplit` | src/utils/helper.js:36-37 | an address that splits at an `@` into a valid local part and domain is accepted |
| `Helper.ValidateSampleAddress` | src/api.js:16 | the sample address `test@example.com` is accepted |
| `Helper.ValidateRejections` | src/utils/helper.js:36-37 | `@a.b`, `a@b`, `a@.b`, `a@b.` and `a@b@c.d` are rejected |
| `JsRegex.MatchLength` | src/utils/helper.js:36 | anything the regex fragment matches is at least as long as the pattern has atoms |
| `AddTwoService.AddTwoIsGuardedSumPlusTwo` | src/services/addTwoService.js:11-16 | for all numbers, `addTwo(a, b)` is the guarded sum `a + b` plus 2 |
| `AddTwoService.AddTwoOnLoad` | src/services/addTwoService.js:20 | `addTwo(1, 2)` is 5, the value logged on load |
| `AddTwoService.AddTwoCommutative` | src/services/addTwoService.js:13 | `addTwo(a, b) == addTwo(b, a)` |
| `AddTwoService.AddTwoStrictlyIncreasing` | src/services/addTwoService.js:13 | raising either argument strictly raises the result |
| `NoLogTest.NoLogTestIsGuardedSumPlusSix` | src/noLogTest.js:11-15 | for all numbers, `noLogTest(a, b)` is the guarded sum `a + b` plus 6 |
| `NoLogTest.NoLogTestOnLoad` | src/noLogTest.js:19 | `noLogTest(1, 2)` is 9, the value logged on load |
| `NoLogTest.NoLogTestCommutative` | src/noLogTest.js:13 | `noLogTest(a, b) == noLogTest(b, a)` |
| `NoLogTest.NoLogTestIsAddTwoPlusFour` | src/noLogTest.js:13 | `noLogTest(a, b) == addTwo(a, b) + 4` for all `a`, `b` |
| `Points.Point.constructor` | src/utils/point.js:11-15 | construction never fails and checks nothing; `x` and `y` are the arguments as given; `z` is the third argument when it is defined, and 0 when it is omitted or undefined |
| `Points.OmittedZIsZero` | src/utils/point.js:11 | `new Point(x, y)` and `new Point(x, y, 0)` have equal fields, with `z` equal to 0 |

## Left out

- The hook files `src/hooks/hooks2.js`, `src/hooks/hooks3.ts`,
  `src/hooks/forsetHooks.js` and `src/hooks/otherTest.js`, and
  `src/utils/targets.js`: as written none of them can return a value. They
  use names that are never imported (`Point`, `calcMoney`), or they read a
  `const`/`let` with the same name as the function they call before it is
  initialised, which throws a ReferenceError. Modelling the sums they appear
  to intend would invent behaviour.
- `src/api.js` and `src/services/userService.js` are asynchronous mocks built
  on timers and promises. They are I/O and timing, with no logic to model.
- `src/main.js` (the entry point that reads a settings file and prints) and
  `src/config.js` (a static object literal and an environment variable) are left out.
  Only the `calculateSum(10, 20)` call in `src/main.js` is kept, as a lemma.
- Every `console.log` is left out, both the per-call logging and the logging
  done when a module loads.
- `Point(1, 2, 3)` called without `new` (`src/utils/point.js:19`) is left out.
  In sloppy mode it writes to the global object and returns undefined. That
  is host scoping, not logic.
- IEEE-754 numbers are not modelled: numbers are unbounded integers. So NaN,
  the infinities, fractions, rounding and overflow are left out. With them
  `calculateSum` would also accept NaN, whose `typeof` is "number".
- `Helper.ValidateEmail` takes only strings. JavaScript's `RegExp.prototype.test`
  first converts a non-string argument with ToString, and that coercion is not modelled.
- `AddTwoService.AddTwo` takes integers only. In JavaScript, `+` on a string
  operand concatenates, and on other non-numbers it coerces, because the
  function has no guard. That coercion is not modelled.
- `NoLogTest.NoLogTest` takes integers only, for the same reason as `AddTwo`.
- `Points.Point.constructor` does not model JavaScript's arity. A call with
  fewer than two arguments gives undefined for the missing `x` or `y`, which
  the caller passes as `JsUndefined` here.
- Two kinds of JavaScript input have no representation in the model. There is
  no `JsValue` case for functions, symbols or bigints, whose `typeof` is
  "function", "symbol" or "bigint". And a Dafny string cannot hold a lone
  UTF-16 surrogate, which a JavaScript string can. On these inputs the program
  takes paths the model already covers: the type guards of `calculateSum` and
  `formatMessage` throw, and a lone surrogate is in `[^\s@]`.
