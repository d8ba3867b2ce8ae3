/** Real-number helpers for the simulator: the square root behind `x ** 0.5`
    and the cube behind `x ** 3`. */
module Numerics {

  /** `a * a`. Kept as a function so that the solver treats a square as one
      term when it appears on both sides of an equation. */
  function Square(a: real): real
  {
    a * a
  }

  /** Between non-negative numbers, squaring keeps the order strict. */
  lemma SquareMonotone(a: real, b: real)
    requires 0.0 <= a < b
    ensures Square(a) < Square(b)
  {
    assert a * b < Square(b);
    assert Square(a) <= a * b;
  }

  /** A square is never negative, and is zero only at zero. */
  lemma SquareSign(a: real)
    ensures Square(a) >= 0.0
    ensures Square(a) == 0.0 <==> a == 0.0
  {
    if a > 0.0 {
      SquareMonotone(0.0, a);
    } else if a < 0.0 {
      SquareMonotone(0.0, -a);
      assert Square(-a) == Square(a);
    }
  }

  /** The square of a product is the product of the squares. */
  lemma SquareMul(a: real, b: real)
    ensures Square(a * b) == Square(a) * Square(b)
  {
  }

  /** The square root of a non-negative real.
      Dafny cannot prove that a root exists (no term it can build serves as a
      witness for `r * r == x`), so the root is left uninterpreted here: an
      arbitrary fixed function. Every fact that depends
      on it being a root takes `SqrtSound()` as a hypothesis. */
  const Sqrt: real -> real

  /** `Sqrt` behaves as the non-negative square root at `x`. */
  ghost predicate SqrtSoundAt(x: real)
  {
    x >= 0.0 ==> Sqrt(x) >= 0.0 && Square(Sqrt(x)) == x
  }

  /** `Sqrt` is the non-negative square root on the non-negative reals. The
      quantifier fires only on `SqrtSoundAt`, that is, where a proof asks for
      a root through `SqrtAt`. */
  ghost predicate SqrtSound()
  {
    forall x: real :: SqrtSoundAt(x)
  }

  /** The defining property of the root at one point. */
  lemma SqrtAt(x: real)
    requires SqrtSound()
    requires x >= 0.0
    ensures Sqrt(x) >= 0.0 && Square(Sqrt(x)) == x
  {
    assert SqrtSoundAt(x);
  }

  /** Any non-negative `r` whose square is `x` is the square root of `x`. */
  lemma SqrtOf(x: real, r: real)
    requires SqrtSound()
    requires r >= 0.0 && Square(r) == x
    ensures Sqrt(x) == r
  {
    SqrtAt(x);
    var s := Sqrt(x);
    if s < r {
      SquareMonotone(s, r);
    } else if r < s {
      SquareMonotone(r, s);
    }
  }

  /** A speed `-sqrt(n / a)`, whose divisor `a` equals a non-zero `b` with
      `n == q * b`, squares back to `q`. The divisor is given twice because a
      caller's `a` is typically a term (a vector's length) and its `b` a
      literal: the solver checks `n == q * b` on literals cheaply, but not
      `n == q * a` with a term that is only known to equal one. */
  lemma NegRootOfQuotient(n: real, a: real, b: real, q: real)
    requires SqrtSound()
    requires a == b && b != 0.0 && q >= 0.0 && n == q * b
    ensures Square(-Sqrt(n / a)) == q
  {
    assert n / a == q;
    SqrtAt(q);
    assert Square(-Sqrt(q)) == Square(Sqrt(q));
  }

  /** Only zero has root zero. */
  lemma SqrtZeroIff(x: real)
    requires SqrtSound()
    requires x >= 0.0
    ensures Sqrt(x) == 0.0 <==> x == 0.0
  {
    SqrtAt(x);
    SquareSign(Sqrt(x));
  }

  /** Dividing by `b * n` and multiplying by `n` is dividing by `b`. */
  lemma DivCancel(a: real, b: real, n: real)
    requires b != 0.0 && n != 0.0
    ensures a / (b * n) * n == a / b
  {
  }

  /** `a ** 3`: the cube keeps the sign of `a` and vanishes only at zero. */
  function Cube(a: real): (c: real)
    ensures a > 0.0 <==> c > 0.0
    ensures a == 0.0 <==> c == 0.0
  {
    SquareSign(a);
    Square(a) * a
  }
}
