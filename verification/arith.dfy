/** Facts about Euclidean division the ladder and the cascade rely on. */
module Arith {

  /** Division is unique: any quotient and in-range remainder that rebuild `x` are the ones. */
  lemma DivModUnique(x: int, d: int, q: int, r: int)
    requires d >= 1 && 0 <= r < d && x == d * q + r
    ensures x / d == q && x % d == r
  {
    var q' := x / d;
    assert d * q' + x % d == d * q + r;
    if q' < q {
      assert d * q - d * q' == d * (q - q');
      MulAtLeast(d, q - q');
    } else if q' > q {
      assert d * q' - d * q == d * (q' - q);
      MulAtLeast(d, q' - q);
    }
  }

  lemma MulAtLeast(d: int, n: int)
    requires d >= 1 && n >= 1
    ensures d * n >= d
  {
  }

  /** Flooring twice is flooring once by the product. */
  lemma FloorOfFloor(x: nat, a: nat, b: nat)
    requires a >= 1 && b >= 1
    ensures x / a / b == x / (a * b)
  {
    var q, r := x / a, x % a;
    var q2, r2 := q / b, q % b;
    Rebuild(x, a, b, q, r, q2, r2);
    InnerRemainder(a, b, r, r2);
    DivModUnique(x, a * b, q2, a * r2 + r);
  }

  lemma Rebuild(x: int, a: int, b: int, q: int, r: int, q2: int, r2: int)
    requires x == a * q + r && q == b * q2 + r2
    ensures x == (a * b) * q2 + (a * r2 + r)
  {
    assert a * q == a * (b * q2) + a * r2;
    assert a * (b * q2) == (a * b) * q2;
  }

  lemma InnerRemainder(a: int, b: int, r: int, r2: int)
    requires a >= 1 && 0 <= r < a && 0 <= r2 < b
    ensures 0 <= a * r2 + r < a * b
  {
    assert a * r2 <= a * (b - 1);
    assert a * (b - 1) == a * b - a;
  }
}
