/** C#'s integer remainder, which truncates toward zero: its result takes
    the sign of the dividend, unlike Dafny's `%`, which is never negative. */
module CSharpInt {
  function Rem(a: int, b: int): (r: int)
    requires b > 0
    ensures -b < r < b
    ensures r < 0 ==> a < 0
    ensures r > 0 ==> a > 0
    ensures r == a % b || r == a % b - b
  {
    if a == 0 then 0
    else if a > 0 then a % b
    else
      var m := (-a) % b;
      RemOfNegative(a, b);
      assert 0 <= m < b;
      -m
  }

  /** A quotient and remainder are determined by any quotient-remainder split. */
  lemma ModUnique(a: int, b: int, k: int, s: int)
    requires b > 0 && a == k * b + s && 0 <= s < b
    ensures a % b == s && a / b == k
  {
    var d := a / b - k;
    assert d * b == s - a % b;
  }

  /** The remainder of a number below three times the divisor. */
  lemma ModSmall(x: int, m: int)
    requires m > 0 && 0 <= x < 3 * m
    ensures x % m == if x < m then x else if x < 2 * m then x - m else x - 2 * m
  {
    if x < m {
      ModUnique(x, m, 0, x);
    } else if x < 2 * m {
      ModUnique(x, m, 1, x - m);
    } else {
      ModUnique(x, m, 2, x - 2 * m);
    }
  }

  /** The Euclidean remainder of a negative number through that of its
      negation. */
  lemma RemOfNegative(a: int, b: int)
    requires b > 0 && a < 0
    ensures (-a) % b == 0 ==> a % b == 0
    ensures (-a) % b != 0 ==> a % b == b - (-a) % b
  {
    var q := (-a) / b;
    var m := (-a) % b;
    assert -a == q * b + m;
    if m == 0 {
      ModUnique(a, b, -q, 0);
    } else {
      ModUnique(a, b, -q - 1, b - m);
    }
  }

  /** For a non-negative dividend the two remainders agree; for a negative
      one that the divisor does not divide, C#'s is Dafny's minus the
      divisor; both vanish together. */
  lemma RemAgainstEuclidean(a: int, b: int)
    requires b > 0
    ensures a >= 0 ==> Rem(a, b) == a % b
    ensures a < 0 && a % b != 0 ==> Rem(a, b) == a % b - b
    ensures a % b == 0 <==> Rem(a, b) == 0
  {
    if a < 0 {
      RemOfNegative(a, b);
    }
  }
}
