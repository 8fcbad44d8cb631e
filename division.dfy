/** Facts about floored division (`Math.floor(a / d)`, Dafny's `/` for a positive `d`). */
module Division {

  /** Division leaves a unique quotient. */
  lemma DivUnique(a: int, d: int, q: int, r: int)
    requires d > 0 && a == d * q + r && 0 <= r < d
    ensures a / d == q
  {
    var x := q - a / d;
    assert a == d * (a / d) + a % d;
    assert d * x == a % d - r;
    assert x >= 1 ==> d * x >= d;
    assert x <= -1 ==> d * x <= -d;
  }

  /** Floored division by a positive divisor is monotone. */
  lemma DivMonotone(a: int, b: int, d: int)
    requires d > 0 && a <= b
    ensures a / d <= b / d
  {
    var x := a / d - b / d;
    assert a == d * (a / d) + a % d;
    assert b == d * (b / d) + b % d;
    assert d * x == (a - a % d) - (b - b % d);
    assert x >= 1 ==> d * x >= d;
  }

  /** A remainder of a remainder stays below the product. */
  lemma MulRem(b: int, c: int, r2: int, r: int)
    requires b > 0 && 0 <= r2 < c && 0 <= r < b
    ensures 0 <= b * r2 + r < b * c
  {
    assert b * r2 <= b * (c - 1);
  }

  /** Flooring twice is flooring once by the product: `floor(floor(a / b) / c) == floor(a / (b * c))`. */
  lemma NestedFloor(a: int, b: int, c: int)
    requires b > 0 && c > 0
    ensures (a / b) / c == a / (b * c)
  {
    var q, r := a / b, a % b;
    var q2, r2 := q / c, q % c;
    assert b * q == (b * c) * q2 + b * r2 by {
      assert q == c * q2 + r2;
    }
    MulRem(b, c, r2, r);
    DivUnique(a, b * c, q2, b * r2 + r);
  }
}
