/**
  The arithmetic primitives of `Operation`: five pure two-argument
  functions.  Python floats are modelled by exact `real` arithmetic, and
  `power` is defined for integral exponents only.
 */
module Operations {
  import opened Errors

  /** Message of the primitive's own zero-divisor check. */
  const DivisionByZeroMessage := "Division by zero is not allowed."

  function Addition(a: real, b: real): (r: real)
  {
    a + b
  }

  /** `a` is the minuend and `b` the subtrahend. */
  function Subtraction(a: real, b: real): (r: real)
  {
    a - b
  }

  function Multiplication(a: real, b: real): (r: real)
  {
    a * b
  }

  /** `a / b`, refusing a zero divisor whatever the dividend. */
  function Division(a: real, b: real): (r: Result<real>)
    ensures r.Failure? <==> b == 0.0
    ensures r.Failure? ==> r.error == ValueError(DivisionByZeroMessage)
    ensures r.Success? ==> r.value * b == a
  {
    if b == 0.0 then Failure(ValueError(DivisionByZeroMessage)) else Success(a / b)
  }

  /** Subtraction undoes addition and addition undoes subtraction. */
  lemma SubtractionUndoesAddition(a: real, b: real)
    ensures Subtraction(Addition(a, b), b) == a
    ensures Addition(Subtraction(a, b), b) == a
    ensures Subtraction(a, b) == -Subtraction(b, a)
    ensures Subtraction(a, b) + b == a
  {
  }

  /** Division by a non-zero divisor undoes multiplication by it. */
  lemma DivisionUndoesMultiplication(a: real, b: real)
    requires b != 0.0
    ensures Division(Multiplication(a, b), b) == Success(a)
    ensures Multiplication(Division(a, b).value, b) == a
  {
    var q := Division(Multiplication(a, b), b).value;
    assert (q - a) * b == 0.0;
    assert q == a;
  }

  /** `x` multiplied by itself `n` times. */
  function NatPower(x: real, n: nat): (r: real)
    ensures x != 0.0 ==> r != 0.0
    ensures n > 0 && x == 0.0 ==> r == 0.0
  {
    if n == 0 then 1.0 else x * NatPower(x, n - 1)
  }

  /** `x ** n` for an integral exponent; a negative exponent divides one by
      the positive power, so it needs a non-zero base. */
  function IntPower(x: real, n: int): (p: real)
    requires n >= 0 || x != 0.0
  {
    if n >= 0 then NatPower(x, n) else 1.0 / NatPower(x, -n)
  }

  predicate IsIntegral(b: real) {
    b.Floor as real == b
  }

  /** `a ** b`.  Defined for an integral exponent `b`, except zero raised to a
      negative power; every other input lies outside the model. */
  function Power(a: real, b: real): (r: Result<real>)
    ensures r.Success? <==> IsIntegral(b) && (a != 0.0 || b >= 0.0)
    ensures b == 0.0 ==> r == Success(1.0)
    ensures a == 0.0 && b > 0.0 && IsIntegral(b) ==> r == Success(0.0)
    ensures r.Success? && a != 0.0 ==> r.value != 0.0
    ensures r.Success? ==> r.value == IntPower(a, b.Floor)
  {
    if IsIntegral(b) && (a != 0.0 || b >= 0.0) then Success(IntPower(a, b.Floor))
    else Failure(Unmodelled("power with a fractional exponent or of zero to a negative exponent"))
  }

  /** Exponents add when powers multiply. */
  lemma {:induction false} NatPowerAdd(x: real, m: nat, n: nat)
    ensures NatPower(x, m + n) == NatPower(x, m) * NatPower(x, n)
  {
    if m > 0 {
      NatPowerAdd(x, m - 1, n);
      assert NatPower(x, m + n) == x * NatPower(x, m - 1 + n);
    }
  }

  /** A negative base gives the positive power for even exponents and its
      negation for odd ones. */
  lemma {:induction false} NatPowerOfNegative(x: real, n: nat)
    ensures NatPower(-x, n) == if n % 2 == 0 then NatPower(x, n) else -NatPower(x, n)
  {
    if n > 0 {
      NatPowerOfNegative(x, n - 1);
    }
  }

  /** Raising the exponent by one multiplies by the base, for every integral
      exponent, negative ones included: `IntPower` is repeated multiplication
      counted from `x ** 0 == 1`. */
  lemma IntPowerStep(x: real, n: int)
    requires x != 0.0
    ensures IntPower(x, n + 1) == x * IntPower(x, n)
  {
  }

  /** A power and the power with the negated exponent are reciprocal. */
  lemma IntPowerNegate(x: real, n: int)
    requires x != 0.0
    ensures IntPower(x, -n) * IntPower(x, n) == 1.0
  {
  }

  /** A natural exponent multiplies the base by itself that many times. */
  lemma PowerOfNatural(a: real, n: nat)
    ensures Power(a, n as real) == Success(NatPower(a, n))
  {
  }

  /** `Power` is repeated multiplication for every integral exponent,
      negative ones included: raising the exponent by one multiplies the
      result by the base. */
  lemma PowerStep(a: real, b: real)
    requires a != 0.0 && IsIntegral(b)
    ensures Power(a, b + 1.0).Success? && Power(a, b).Success?
    ensures Power(a, b + 1.0).value == a * Power(a, b).value
  {
  }

  /** A power and the power with the negated exponent are reciprocal. */
  lemma PowerReciprocal(a: real, b: real)
    requires a != 0.0 && IsIntegral(b)
    ensures Power(a, -b).Success? && Power(a, b).Success?
    ensures Power(a, -b).value * Power(a, b).value == 1.0
  {
  }

  /** The cases the primitive's behaviour was pinned down on. */
  lemma PowerExamples()
    ensures Power(2.0, 3.0) == Success(8.0)
    ensures Power(-2.0, 3.0) == Success(-8.0)
    ensures Power(-2.0, 4.0) == Success(16.0)
    ensures Power(2.0, -3.0) == Success(0.125)
    ensures Power(0.0, 5.0) == Success(0.0)
    ensures Power(5.0, 0.0) == Success(1.0)
    ensures Power(0.0, 0.0) == Success(1.0)
  {
  }
}
