/** Integer facts the solvers rely on, kept apart from the string theories so that the solver sees them alone. */
module Arith {

  lemma MulNonZero(x: int, y: int)
    requires x != 0 && y != 0
    ensures x * y != 0
  {
  }

  lemma SquareMonotone(x: nat, y: nat)
    requires x < y
    ensures x * x < y * y
  {
  }

  /** a*x² + b*x + c with b = -a(r0 + r1) and c = a*r0*r1 factors as a(x - r0)(x - r1). */
  lemma Factor(a: int, r0: int, r1: int, r: int)
    ensures a * r * r + (-a * (r0 + r1)) * r + a * r0 * r1 == a * ((r - r0) * (r - r1))
  {
  }

  /** ... so its integer zeros are r0 and r1 and nothing else. */
  lemma FactorZeros(a: int, r0: int, r1: int, r: int)
    requires a != 0
    ensures a * r * r + (-a * (r0 + r1)) * r + a * r0 * r1 == 0 <==> r == r0 || r == r1
  {
    Factor(a, r0, r1, r);
    if r == r0 || r == r1 {
      assert (r - r0) * (r - r1) == 0;
    } else {
      MulNonZero(r - r0, r - r1);
      MulNonZero(a, (r - r0) * (r - r1));
    }
  }

  /** ... and its discriminant is (a(r1 - r0))². */
  lemma DiscriminantSquare(a: int, r0: int, r1: int)
    ensures (-a * (r0 + r1)) * (-a * (r0 + r1)) - 4 * a * (a * r0 * r1) == (a * (r1 - r0)) * (a * (r1 - r0))
  {
  }

  /** -b ± a(r1 - r0) with b = -a(r0 + r1): the numerators of the two roots. */
  lemma RootNumerators(a: int, r0: int, r1: int)
    ensures -(-a * (r0 + r1)) + a * (r1 - r0) == 2 * a * r1
    ensures -(-a * (r0 + r1)) - a * (r1 - r0) == 2 * a * r0
  {
  }

  lemma MulNonNegative(x: nat, y: nat)
    ensures x * y >= 0
  {
  }

  lemma MulSwap(a: int, x: int, y: int)
    ensures a * x * y == a * y * x
  {
  }

  /** Levelling from l to l + 1 costs l*50: the triangular sums 25*l*(l - 1) differ by exactly that. */
  lemma TriangularStep(l: int)
    ensures 25 * (l + 1) * l - 25 * l * (l - 1) == 50 * l
  {
  }

  /** 25*l*(l - 1) - (l - 1)*50 = 25*(l - 1)*(l - 2), positive from l = 3 on. */
  lemma ShortfallIdentity(l: int)
    ensures 25 * l * (l - 1) - (l - 1) * 50 == 25 * (l - 1) * (l - 2)
    ensures l >= 3 ==> 25 * (l - 1) * (l - 2) > 0
  {
    if l >= 3 {
      assert (l - 1) * (l - 2) > 0 by {
        MulNonZero(l - 1, l - 2);
        MulNonNegative(l - 1, l - 2);
      }
    }
  }

  lemma CancelLeft(a: int, x: int, y: int)
    requires a != 0 && a * x == a * y
    ensures x == y
  {
    assert a * (x - y) == 0;
    if x != y {
      MulNonZero(a, x - y);
    }
  }

  lemma MulAtLeast(a: nat, k: int)
    requires k >= 1
    ensures a * k >= a
  {
  }

  lemma ExactDivision(a: int, x: int)
    requires a > 0
    ensures (a * x) % a == 0 && (a * x) / a == x
  {
    var q, m := (a * x) / a, (a * x) % a;
    assert a * q + m == a * x && 0 <= m < a;
    assert a * (x - q) == m;
    if x - q >= 1 {
      MulAtLeast(a, x - q);
    } else if x - q <= -1 {
      MulAtLeast(a, q - x);
    }
  }

  /** The largest r <= k with r*r <= n. */
  function SqrtBelow(n: nat, k: nat): (r: nat)
    requires n < (k + 1) * (k + 1)
    ensures r * r <= n < (r + 1) * (r + 1)
    decreases k
  {
    if k * k <= n then k else SqrtBelow(n, k - 1)
  }

  /** The integer square root; `Math.sqrt(n)` when n is a perfect square. */
  function ISqrt(n: nat): (r: nat)
    ensures r * r <= n < (r + 1) * (r + 1)
  {
    SqrtBelow(n, n)
  }

  lemma ISqrtOfSquare(m: nat)
    ensures ISqrt(m * m) == m
  {
    var r := ISqrt(m * m);
    if r < m {
      SquareMonotone(r + 1, m + 1);
      if r + 1 < m {
        SquareMonotone(r + 1, m);
      }
    } else if r > m {
      SquareMonotone(m, r);
    }
  }
}
