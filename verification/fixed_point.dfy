/** The `U20F12` fixed-point type of the `fixed` crate as used by the
    firmware: an unsigned 32-bit value with 12 fractional bits, modelled as
    its bit pattern. Operations that would overflow, underflow or divide by
    zero panic in the firmware; here they return an error. */
module FixedPoint {
  import opened Wrappers
  import opened Ints
  import opened DivisionFacts

  /** The bit pattern of `U20F12::ONE`: twelve fractional bits. */
  const One: nat := 0x1000

  /** Integers representable in the twenty integer bits. */
  const IntLimit: nat := 0x10_0000

  /** A `U20F12` value, standing for `bits / 4096`. */
  type Fixed = U32

  datatype ArithError = Overflow | DivideByZero | Underflow

  /** `U20F12::from_num` of an unsigned integer. */
  function FromNum(n: nat): (r: Result<Fixed, ArithError>)
    ensures r.Success? <==> n < IntLimit
    ensures r.Success? ==> r.value % One == 0 && r.value / One == n
    ensures r.Failure? ==> r.error == Overflow
  {
    if n < IntLimit then Success(n * One) else Failure(Overflow)
  }

  /** `to_num` into an integer: the fraction is dropped. */
  function ToNum(x: Fixed): (n: nat)
    ensures n * One <= x < (n + 1) * One
    ensures n < IntLimit
  {
    x / One
  }

  /** Fixed-point division: the exact quotient of the two values,
      truncated to twelve fractional bits. */
  function Div(a: Fixed, b: Fixed): (r: Result<Fixed, ArithError>)
    ensures r == Failure(DivideByZero) <==> b == 0
    ensures r.Success? <==> b != 0 && a * One < U32Limit * b
    ensures r.Success? ==> r.value * b <= a * One < (r.value + 1) * b
    ensures r.Failure? ==> r.error != Underflow
  {
    if b == 0 then Failure(DivideByZero)
    else
      var q := (a * One) / b;
      DivBounds(a * One, b);
      DivAtLeast(a * One, b, U32Limit);
      if q < U32Limit then Success(q) else Failure(Overflow)
  }

  /** Fixed-point subtraction. */
  function Sub(a: Fixed, b: Fixed): (r: Result<Fixed, ArithError>)
    ensures r.Success? <==> b <= a
    ensures r.Success? ==> r.value + b == a
    ensures r.Failure? ==> r.error == Underflow
  {
    if b <= a then Success(a - b) else Failure(Underflow)
  }

  /** Converting an integer in and back out gives it back. */
  lemma FromNumToNum(n: nat)
    requires n < IntLimit
    ensures FromNum(n).Success? && ToNum(FromNum(n).value) == n
  {
  }

  /** The quotient of two integers in fixed point is the exact quotient
      m/n truncated to twelve fractional bits: its bits are m·4096 / n. */
  lemma {:induction false} DivOfIntegers(m: nat, n: nat)
    requires m < IntLimit && 0 < n < IntLimit
    ensures Div(FromNum(m).value, FromNum(n).value) == Success((m * One) / n)
  {
    var a := FromNum(m).value;
    var b := FromNum(n).value;
    assert a == m * One && b == n * One;
    assert a * One == (m * One) * One;
    DivCancel(m * One, n, One);
    DivMonoDividend(m * One, IntLimit * One, n);
    assert (m * One) / n < U32Limit;
    DivUnique(a * One, b, (m * One) / n);
  }
}
