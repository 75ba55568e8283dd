/**
 Real arithmetic.  Products that occur in definitions are written with `Times`, so that proofs can
 work with the laws of multiplication alone.
 */
module ExactArithmetic {

  function Times(x: real, y: real): real {
    x * y
  }

  function Square(x: real): real {
    Times(x, x)
  }

  function Abs(x: real): real {
    if x < 0.0 then -x else x
  }

  lemma Distribute(x: real, y: real, z: real)
    ensures Times(x, y + z) == Times(x, y) + Times(x, z)
    ensures Times(x, y - z) == Times(x, y) - Times(x, z)
    ensures Times(y + z, x) == Times(y, x) + Times(z, x)
    ensures Times(y - z, x) == Times(y, x) - Times(z, x)
  {
  }

  lemma Associate(x: real, y: real, z: real)
    ensures Times(x, Times(y, z)) == Times(Times(x, y), z) == Times(y, Times(x, z))
    ensures Times(x, y) == Times(y, x)
  {
    assert x * (y * z) == (x * y) * z == y * (x * z);
  }

  lemma Signs(x: real, y: real)
    ensures Square(x) >= 0.0
    ensures Times(x, y) == 0.0 <==> x == 0.0 || y == 0.0
    ensures x > 0.0 && y > 0.0 ==> Times(x, y) > 0.0
  {
  }

  /** `a / b` is the one number that gives `a` when it is multiplied by `b`. */
  lemma Quotient(a: real, b: real, q: real)
    requires b != 0.0
    ensures a / b == q <==> Times(q, b) == a
  {
  }
}
