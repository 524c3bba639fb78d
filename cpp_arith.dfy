/**
 * C++ integer division and remainder. Dafny's `/` and `%` are Euclidean; C++ (since C++11)
 * truncates the quotient toward zero and gives the remainder the sign of the dividend.
 */
module CppArith {

  function Abs(x: int): (r: nat)
    ensures r == x || r == -x
  {
    if x < 0 then -x else x
  }

  /** `a / b` as C++ computes it on `int`: the quotient truncated toward zero. */
  function Quot(a: int, b: int): (q: int)
    requires b != 0
    ensures Abs(a - b * q) < Abs(b)
    ensures a >= 0 ==> a - b * q >= 0
    ensures a <= 0 ==> a - b * q <= 0
  {
    if a >= 0 then
      (if b > 0 then a / b else -(a / -b))
    else
      (if b > 0 then -((-a) / b) else (-a) / (-b))
  }

  /** `a % b` as C++ computes it: `a - b * (a / b)` with the truncating quotient. */
  function Rem(a: int, b: int): (r: int)
    requires b != 0
    ensures Abs(r) < Abs(b)
    ensures a >= 0 ==> r >= 0
    ensures a <= 0 ==> r <= 0
    ensures a == b * Quot(a, b) + r
  {
    a - b * Quot(a, b)
  }

  /** For a non-negative dividend and a positive divisor the two conventions agree. */
  lemma QuotOfNatural(a: int, b: int)
    requires a >= 0 && b > 0
    ensures Quot(a, b) == a / b && Rem(a, b) == a % b
  {
  }

  /** Truncating division by a positive divisor is monotone in the dividend. */
  lemma QuotMonotone(a: int, a': int, b: int)
    requires b > 0 && a <= a'
    ensures Quot(a, b) <= Quot(a', b)
  {
    var q, q' := Quot(a, b), Quot(a', b);
    var r, r' := a - b * q, a' - b * q';
    if a >= 0 || a' < 0 {
      // both remainders have the same sign, so b * (q - q') == a - a' + r' - r < b
      MulSub(b, q, q');
      SmallProduct(b, q - q');
    } else {
      // a < 0 <= a': then b * q < b and b * -q' < b, so q <= 0 <= q'
      SmallProduct(b, q);
      MulSub(b, 0, q');
      SmallProduct(b, -q');
    }
  }

  lemma MulSub(b: int, x: int, y: int)
    ensures b * (x - y) == b * x - b * y
  {
  }

  lemma SmallProduct(b: int, d: int)
    requires b > 0 && b * d < b
    ensures d < 1
  {
    if d >= 1 {
      MulAtLeast(b, d);
    }
  }

  lemma MulAtLeast(b: int, d: int)
    requires b > 0 && d >= 1
    ensures b * d >= b
  {
    var k := d - 1;
    assert b * d == b * k + b;
  }
}
