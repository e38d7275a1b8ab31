/** Facts about products and quotients of unbounded integers, each proved on its own so
    that the proofs about machine words stay linear. */
module Arith {

  lemma MulMono(a: int, b: int, c: int)
    requires a <= b && 0 <= c
    ensures a * c <= b * c
  {}

  lemma ProductBound(a: nat, b: nat, k: nat, l: nat)
    requires a <= k && b <= l
    ensures 0 <= a * b <= k * l
  {
    MulMono(a, k, b);
    MulMono(b, l, k);
  }

  /** The quotient is the one multiple that fits. */
  lemma DivUnique(x: int, d: int, q: int)
    requires d > 0 && q * d <= x < q * d + d
    ensures x / d == q && x % d == x - q * d
  {
    var q' := x / d;
    assert x == q' * d + x % d;
    if q' < q {
      MulMono(q' + 1, q, d);
    } else if q' > q {
      MulMono(q + 1, q', d);
    }
  }

  lemma DivSplit(x: int, d: int)
    requires d > 0
    ensures x == x / d * d + x % d && 0 <= x % d < d
  {}

  lemma MultipleMod(a: nat, d: nat)
    requires d > 0
    ensures a * d % d == 0 && a * d / d == a
  {
    DivUnique(a * d, d, a);
  }

  /** The sign of a product with a positive factor. */
  lemma CompareScaled(d: int, e: int, b: int)
    requires b > 0
    ensures d * b < e * b <==> d < e
  {
    if d < e { MulMono(d + 1, e, b); } else { MulMono(e, d, b); }
  }

  lemma DivDiv(x: nat, a: nat, b: nat)
    requires a > 0 && b > 0
    ensures a * b > 0
    ensures x / a / b == x / (a * b)
  {
    var y := x / a;
    var q := y / b;
    DivSplit(x, a);
    DivSplit(y, b);
    NestedSplit(x, a, b, y, q, x % a, y % b);
    DivUnique(x, a * b, q);
  }

  lemma NestedSplit(x: int, a: int, b: int, y: int, q: int, r: int, s: int)
    requires a > 0 && b > 0 && x == y * a + r && y == q * b + s
    requires 0 <= r < a && 0 <= s < b
    ensures a * b > 0 && q * (a * b) <= x < q * (a * b) + a * b
  {
    assert y * a == q * (a * b) + s * a;
    assert 0 <= s * a <= (b - 1) * a by { MulMono(s, b - 1, a); MulMono(0, s, a); }
    assert (b - 1) * a == a * b - a;
  }

  lemma ModSplit(n: nat, d: nat)
    requires d > 0
    ensures n % (2 * d) == n % 2 + 2 * (n / 2 % d)
  {
    var h := n / 2;
    var q := h / d;
    DivSplit(h, d);
    assert q * (2 * d) == 2 * (q * d);
    DivUnique(n, 2 * d, q);
  }

  lemma CancelFactor(x: nat, D: nat, d: nat)
    requires D > 0 && d > 0
    ensures d * D > 0
    ensures d * x / (d * D) == x / D
  {
    var q := x / D;
    DivSplit(x, D);
    ScaledSplit(x, D, d, q, x % D);
    DivUnique(d * x, d * D, q);
  }

  lemma ScaledIdentity(D: int, d: int, q: int, r: int)
    ensures d * (q * D + r) == q * (d * D) + r * d
  {}

  lemma ScaledSplit(x: int, D: int, d: int, q: int, r: int)
    requires D > 0 && d > 0 && x == q * D + r && 0 <= r < D
    ensures d * D > 0 && q * (d * D) <= d * x < q * (d * D) + d * D
  {
    ScaledIdentity(D, d, q, r);
    MulMono(0, r, d);
    MulMono(r, D - 1, d);
    assert (D - 1) * d == d * D - d;
    MulMono(1, d, D);
  }
}
