/** The exponentiation in `power_calculator.py`: repeated multiplication,
    and a reciprocal for a negative exponent. */
module PowerCalculator {

  function Pow(x: real, n: nat): (p: real)
    ensures x != 0.0 ==> p != 0.0
  {
    if n == 0 then 1.0 else x * Pow(x, n - 1)
  }

  /** `main` after reading the inputs; a zero base is refused when it is
      read, so it is a precondition here. */
  method Power(number: real, exponent: int) returns (result: real)
    requires number != 0.0
    ensures exponent >= 0 ==> result == Pow(number, exponent)
    ensures exponent < 0 ==> result * Pow(number, -exponent) == 1.0
  {
    var e := exponent;
    var flag := 0;
    if e < 0 {
      e := e * -1;
      flag := 1;
    }
    var e0: nat := e;
    result := 1.0;
    while e > 0
      invariant 0 <= e <= e0
      invariant result * Pow(number, e) == Pow(number, e0)
      decreases e
    {
      assert Pow(number, e) == number * Pow(number, e - 1);
      result := result * number;
      e := e - 1;
    }
    if flag == 1 {
      result := 1.0 / result;
    }
  }
}
