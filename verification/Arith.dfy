/** Small facts about products and Euclidean division that the solver is spared from finding. */
module Arith {
  lemma DivBelow(n: nat, base: nat, m: nat)
    requires base >= 1 && n < base * m
    ensures n / base < m
  {
    assert n == base * (n / base) + n % base;
    assert base * (n / base) < base * m;
  }

  lemma Euclid(n: nat, d: nat)
    requires d >= 1
    ensures n == n / d * d + n % d && n % d < d
  {
  }

  lemma PositiveProduct(a: nat, b: nat)
    requires a > 0 && b > 0
    ensures a * b > 0
  {
  }

  lemma LowDigit(high: nat, radix: nat, low: nat)
    requires low < radix
    ensures (high * radix + low) % radix == low && (high * radix + low) / radix == high
  {
    var n := high * radix + low;
    assert n == (n / radix) * radix + n % radix;
    if n / radix > high {
      assert n / radix >= high + 1;
      MulMono(high + 1, n / radix, radix);
    } else if n / radix < high {
      MulMono(n / radix + 1, high, radix);
    }
  }

  lemma MulMono(a: nat, b: nat, m: nat)
    requires a <= b
    ensures a * m <= b * m
  {
  }

  lemma MulAssoc(a: nat, b: nat, c: nat)
    ensures a * (b * c) == (a * b) * c
  {
  }

  lemma DivStep(a: int, d: int)
    requires d > 0
    ensures (a - d) / d == a / d - 1
    ensures a >= 0 <==> a / d >= 0
  {
    assert a == d * (a / d) + a % d;
    assert a - d == d * (a / d - 1) + a % d;
    DivUnique(a - d, d, a / d - 1, a % d);
  }

  lemma DivUnique(a: int, d: int, q: int, r: int)
    requires d > 0 && a == d * q + r && 0 <= r < d
    ensures a / d == q
  {
    var k := a / d - q;
    assert a == d * (a / d) + a % d;
    assert d * k == r - a % d;
    SignOfMultiple(k, d);
    SignOfMultiple(-k, d);
  }

  lemma SignOfMultiple(k: int, d: int)
    requires d > 0 && d * k > -d
    ensures k >= 0
  {
  }

  lemma DivMono(a: int, b: int, d: int)
    requires d > 0 && a <= b
    ensures a / d <= b / d
  {
    assert a == d * (a / d) + a % d && b == d * (b / d) + b % d;
    SignOfMultiple(b / d - a / d, d);
  }

  lemma MulNonNegative(a: int, b: int)
    requires a >= 0 && b >= 0
    ensures a * b >= 0
  {
  }
}
