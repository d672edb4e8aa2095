/** Integer division as C# does it: `/` on `int` operands and the cast
    `(int)` of a `double` both round toward zero, where Dafny's `/` rounds
    toward negative infinity. */
module Division {
  /** `a / d` rounded toward zero, as C# `/` on `int` operands and the cast
      `(int)` of a positive or negative total do. */
  function TruncatedQuotient(a: int, d: nat): (q: int)
    requires d > 0
    ensures Abs(q) == Abs(a) / d
    ensures q > 0 ==> a > 0
    ensures q < 0 ==> a < 0
  {
    if a >= 0 then a / d else -((-a) / d)
  }

  function Abs(x: int): (r: nat)
    ensures r == x || r == -x
  {
    if x < 0 then -x else x
  }

  /** Truncation toward zero is symmetric, so only the magnitude of the
      dividend decides the magnitude of the quotient. */
  lemma TruncatedQuotientNegate(a: int, d: nat)
    requires d > 0
    ensures TruncatedQuotient(-a, d) == -TruncatedQuotient(a, d)
  {
  }
}
