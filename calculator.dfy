/** `Calculator<int>`: two 32-bit operands fixed when the calculator is built, and
    the four operations add, subtract, multiply and divide. Operations are member
    functions of an immutable datatype value, so no call can change the operands. */
module Calculator {
  import opened Int32
  import opened TruncatingDivision

  /** The one error kind: `std::invalid_argument`, raised by divide on a zero divisor. */
  datatype Error = InvalidArgument

  /** A returned value, or the error that was raised instead of returning. */
  datatype Result<T> = Success(value: T) | Failure(error: Error)

  /** Which of the four member functions a caller invokes. */
  datatype Operation = Addition | Subtraction | Multiplication | Division

  datatype Calculator = Calculator(number1: Int32, number2: Int32) {

    /** Signed overflow is undefined in C++: add is meaningful only when the exact sum fits. */
    predicate AddDefined() {
      InRange(number1 + number2)
    }

    predicate SubtractDefined() {
      InRange(number1 - number2)
    }

    predicate MultiplyDefined() {
      InRange(number1 * number2)
    }

    /** A zero divisor is always handled (by the error); otherwise the truncated
        quotient must fit, which excludes only MIN / -1 (see DivideDefinedExactly). */
    predicate DivideDefined() {
      number2 == 0 || InRange(TruncDiv(number1, number2))
    }

    /** The exact sum, as a 32-bit value: no wrap-around takes place. */
    function Add(): (r: Int32)
      requires AddDefined()
      ensures r == number1 + number2
    {
      number1 + number2
    }

    /** The exact difference, as a 32-bit value. */
    function Subtract(): (r: Int32)
      requires SubtractDefined()
      ensures r == number1 - number2
    {
      number1 - number2
    }

    /** The exact product, as a 32-bit value. */
    function Multiply(): (r: Int32)
      requires MultiplyDefined()
      ensures r == number1 * number2
    {
      number1 * number2
    }

    /** Fails with InvalidArgument exactly when the divisor is zero; otherwise the
        quotient truncated toward zero, characterised by its remainder. */
    function Divide(): (r: Result<Int32>)
      requires DivideDefined()
      ensures r.Failure? <==> number2 == 0
      ensures r.Failure? ==> r.error == InvalidArgument
      ensures r.Success? ==> Abs(r.value * number2) <= Abs(number1)
      ensures r.Success? ==> IsTruncQuotient(number1, number2, r.value)
    {
      if number2 == 0 then Failure(InvalidArgument)
      else Success(TruncDiv(number1, number2))
    }

    predicate Defined(op: Operation) {
      match op
      case Addition => AddDefined()
      case Subtraction => SubtractDefined()
      case Multiplication => MultiplyDefined()
      case Division => DivideDefined()
    }

    /** One call of the chosen member function; only divide can fail. */
    function Apply(op: Operation): (r: Result<Int32>)
      requires Defined(op)
      ensures r.Failure? <==> op == Division && number2 == 0
    {
      match op
      case Addition => Success(Add())
      case Subtraction => Success(Subtract())
      case Multiplication => Success(Multiply())
      case Division => Divide()
    }

    /** A sequence of calls on the same calculator, in the given order. Because the
        operands never change, the i-th result depends only on the i-th operation:
        every call, in any order and any number of times, gives the same answer. */
    function Run(ops: seq<Operation>): (rs: seq<Result<Int32>>)
      requires forall i :: 0 <= i < |ops| ==> Defined(ops[i])
      ensures |rs| == |ops|
      ensures forall i :: 0 <= i < |ops| ==> rs[i] == Apply(ops[i])
    {
      if ops == [] then [] else [Apply(ops[0])] + Run(ops[1..])
    }
  }

  /** Divide is well-defined for every pair of 32-bit operands except MIN / -1,
      whose quotient 2^31 does not fit in `int`. */
  lemma {:induction false} DivideDefinedExactly(c: Calculator)
    ensures c.DivideDefined() <==> !(c.number1 == MIN && c.number2 == -1)
  {
    var a: int, b: int := c.number1, c.number2;
    if b == 1 {
      assert a - a * b == 0;
      TruncDivUnique(a, b, a);
    } else if b == -1 {
      assert a - (-a) * b == 0;
      TruncDivUnique(a, b, -a);
    } else if b != 0 {
      var q := TruncDiv(a, b);
      ScaledMagnitude(q, b);
      assert 2 * Abs(q) <= Abs(a) <= 0x8000_0000;
    }
  }

  /** Subtracting the second operand from the sum gives back the first. */
  lemma AddThenSubtract(c: Calculator)
    requires c.AddDefined()
    ensures Calculator(c.Add(), c.number2).SubtractDefined()
    ensures Calculator(c.Add(), c.number2).Subtract() == c.number1
  {}

  /** Adding the second operand to the difference gives back the first. */
  lemma SubtractThenAdd(c: Calculator)
    requires c.SubtractDefined()
    ensures Calculator(c.Subtract(), c.number2).AddDefined()
    ensures Calculator(c.Subtract(), c.number2).Add() == c.number1
  {}

  /** Dividing the product by a non-zero second operand gives back the first, with
      no failure and no overflow. */
  lemma {:induction false} MultiplyThenDivide(c: Calculator)
    requires c.MultiplyDefined() && c.number2 != 0
    ensures Calculator(c.Multiply(), c.number2).DivideDefined()
    ensures Calculator(c.Multiply(), c.number2).Divide() == Success(c.number1)
  {
    TruncDivExact(c.number1, c.number2);
  }

  /** For non-negative operands and a non-zero divisor, divide gives Dafny's `/`. */
  lemma {:induction false} DivideNonNegative(c: Calculator)
    requires c.number1 >= 0 && c.number2 > 0
    ensures c.DivideDefined()
    ensures c.Divide() == Success(c.number1 / c.number2)
  {
    TruncDivNonNegative(c.number1, c.number2);
  }

  /** Two sessions of calls on one calculator do not interfere: running them one
      after the other gives the results of each run on its own. */
  lemma {:induction false} RunAppend(c: Calculator, xs: seq<Operation>, ys: seq<Operation>)
    requires forall i :: 0 <= i < |xs| ==> c.Defined(xs[i])
    requires forall i :: 0 <= i < |ys| ==> c.Defined(ys[i])
    ensures c.Run(xs + ys) == c.Run(xs) + c.Run(ys)
  {
    var zs := xs + ys;
    assert forall i :: 0 <= i < |zs| ==> zs[i] == if i < |xs| then xs[i] else ys[i - |xs|];
  }

  /** The integer test case: operands (10, 2) give 12, 8, 20 and 5. */
  lemma IntegerExample()
    ensures Calculator(10, 2).Add() == 12
    ensures Calculator(10, 2).Subtract() == 8
    ensures Calculator(10, 2).Multiply() == 20
    ensures Calculator(10, 2).DivideDefined()
    ensures Calculator(10, 2).Divide() == Success(5)
  {}

  /** The division-by-zero test case: operands (10, 0) raise InvalidArgument. */
  lemma DivisionByZeroExample()
    ensures Calculator(10, 0).DivideDefined()
    ensures Calculator(10, 0).Divide() == Failure(InvalidArgument)
  {}

  /** A negative dividend: -7 / 2 gives -3 (toward zero), not Dafny's -4. */
  lemma NegativeDividendExample()
    ensures Calculator(-7, 2).DivideDefined()
    ensures Calculator(-7, 2).Divide() == Success(-3)
    ensures -7 / 2 == -4
  {}
}
