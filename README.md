# Calculator<int> in Dafny

This project models the `Calculator<T>` class template of `calculator/src/calculator.hpp`
at its integer instantiation `Calculator<int>`. A calculator holds two operands,
`number1` and `number2`, set by the constructor and never changed. It offers four
operations: `add`, `subtract`, `multiply` and `divide`. `divide` throws
`std::invalid_argument` when the divisor is zero.

- `Int32` (int32.dfy): the signed range of a 32-bit `int`. C++ only promises at least 16 bits; 32 bits is what the common data models (ILP32, LP64, LLP64) give, and the model assumes it.
- `TruncatingDivision` (truncating_division.dfy): C++ integer division. It truncates
  toward zero (ISO/IEC 14882, [expr.mul] paragraph 4). It is defined from Dafny's
  Euclidean `/` on magnitudes. It is characterised by its remainder, shown to be
  unique, and related to Dafny's `/`.
- `Calculator` (calculator.dfy): the calculator is an immutable datatype value
  `Calculator(number1, number2)`; the datatype's constructor plays the part of the C++
  constructor. The four operations are member functions. The thrown exception is the
  `Failure(InvalidArgument)` variant of a `Result`. `Run` models any sequence of calls
  on one instance.

C++ signed overflow is undefined behaviour, including `INT_MIN / -1`. So each operation
requires that its exact mathematical result lies in [-2^31, 2^31-1]. No result ever
wraps around.

## Model

| member | source | states |
|---|---|---|
| TruncatingDivision.TruncDiv | calculator/src/calculator.hpp:22 | for a non-zero divisor, the quotient q satisfies `|q*b| <= |a|` and `|a - q*b| < |b|`, and the remainder `a - q*b` is zero or has the sign of `a` (truncation toward zero) |
| TruncatingDivision.TruncDivUnique | calculator/src/calculator.hpp:22 | the two remainder conditions alone determine the quotient: any q meeting them equals TruncDiv |
| TruncatingDivision.TruncDivEuclidean | calculator/src/calculator.hpp:22 | the truncating quotient equals Dafny's Euclidean `/` if and only if the dividend is non-negative or the division is exact |
| TruncatingDivision.TruncDivNonNegative | calculator/src/calculator.hpp:22 | for `a >= 0` and `b > 0` the truncating quotient equals Dafny's `/` |
| TruncatingDivision.TruncDivNegation | calculator/src/calculator.hpp:22 | negating the dividend or the divisor negates the truncating quotient |
| TruncatingDivision.TruncDivExact | calculator/src/calculator.hpp:22 | dividing the product `a*b` by `b != 0` returns `a` |
| Calculator.Calculator.Add | calculator/src/calculator.hpp:11 | the result is the exact sum `number1 + number2`; it is defined only when that sum fits in 32 bits |
| Calculator.Calculator.Subtract | calculator/src/calculator.hpp:13 | the result is the exact difference `number1 - number2`; it is defined only when that difference fits in 32 bits |
| Calculator.Calculator.Multiply | calculator/src/calculator.hpp:15 | the result is the exact product `number1 * number2`; it is defined only when that product fits in 32 bits |
| Calculator.Calculator.Divide | calculator/src/calculator.hpp:17-23 | fails with InvalidArgument, and gives no value, exactly when `number2 == 0`; otherwise it returns the quotient that satisfies the truncation remainder conditions |
| Calculator.Calculator.Apply | calculator/src/calculator.hpp:11-23 | one call of a chosen operation; only a division by zero fails |
| Calculator.Calculator.Run | calculator/src/calculator.hpp:9-27 | in any sequence of calls on one instance, the i-th result equals a single call of the i-th operation; this holds by construction, since the instance is an immutable value whose operands are set only by the constructor (hpp:9, :25-27), and is not a proof about any other state |
| Calculator.RunAppend | calculator/src/calculator.hpp:9-27 | two sessions of calls on one instance do not affect each other: running them back to back gives the concatenated results |
| Calculator.DivideDefinedExactly | calculator/src/calculator.hpp:22 | for 32-bit operands, divide's result fits in `int` unless `number1 == -2^31` and `number2 == -1` |
| Calculator.AddThenSubtract | calculator/src/calculator.hpp:11-13 | subtracting `number2` from the sum gives back `number1` |
| Calculator.SubtractThenAdd | calculator/src/calculator.hpp:11-13 | adding `number2` to the difference gives back `number1` |
| Calculator.MultiplyThenDivide | calculator/src/calculator.hpp:15-22 | dividing the product by a non-zero `number2` succeeds and gives back `number1` |
| Calculator.DivideNonNegative | calculator/src/calculator.hpp:17-22 | for non-negative `number1` and positive `number2`, divide succeeds with Dafny's `number1 / number2` |
| Calculator.IntegerExample | calculator/tests/test_Calculator.cpp:6-12 | operands (10, 2) give add 12, subtract 8, multiply 20 and divide 5 |
| Calculator.DivisionByZeroExample | calculator/tests/test_Calculator.cpp:25-28 | operands (10, 0) make divide fail with InvalidArgument |
| Calculator.NegativeDividendExample | calculator/src/calculator.hpp:22 | operands (-7, 2) make divide return -3, where Dafny's `/` gives -4 |

## Left out

- `Calculator<double>` and its test (calculator/tests/test_Calculator.cpp:15-21): IEEE-754 floating point has no exact model here.
- Genericity over an arbitrary `T`: the behaviour of other types depends on operator overloads that cannot be seen.
- The exception's message text "Division by zero": it carries no behaviour, so the error is the bare `InvalidArgument`.
- The GoogleTest test framework and its macros: its integer cases appear as the example lemmas above.
- The width of `int`: the model assumes a 32-bit two's-complement `int`; other widths allowed by C++ are not modelled.
- Undefined behaviour on overflow is not modelled as a value: each operation instead requires that its exact result fits in 32 bits.
