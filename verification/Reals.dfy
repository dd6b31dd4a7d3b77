/** Signs, cancellation and distribution over the reals, one nonlinear step at a time. */
module Reals {

  lemma ProductSigns(x: real, y: real)
    ensures x >= 0.0 && y >= 0.0 ==> x * y >= 0.0
    ensures x > 0.0 && y > 0.0 ==> x * y > 0.0
  {
  }

  lemma QuotientSigns(x: real, y: real)
    requires y > 0.0
    ensures x / y * y == x
    ensures x >= 0.0 ==> x / y >= 0.0
    ensures x > 0.0 ==> x / y > 0.0
  {
  }

  lemma CancelPositive(x: real, c: real)
    requires c > 0.0
    ensures x * c >= 0.0 ==> x >= 0.0
    ensures x * c > 0.0 ==> x > 0.0
    ensures x * c == 0.0 ==> x == 0.0
  {
  }

  lemma Distributes(x: real, y: real, c: real)
    ensures (x - y) * c == x * c - y * c
    ensures (x + y) * c == x * c + y * c
  {
  }

  /** A common positive factor changes no comparison. */
  lemma CancelFactor(x: real, y: real, c: real)
    requires c > 0.0
    ensures x * c == y * c <==> x == y
    ensures x * c < y * c <==> x < y
    ensures x * c <= y * c <==> x <= y
  {
    Distributes(y, x, c);
    CancelPositive(y - x, c);
    ProductSigns(y - x, c);
    Distributes(x, y, c);
    CancelPositive(x - y, c);
    ProductSigns(x - y, c);
  }

  lemma ScalesUp(x: real, y: real, c: real)
    requires x <= y && 0.0 <= c
    ensures x * c <= y * c
    ensures x < y && 0.0 < c ==> x * c < y * c
  {
    ProductSigns(y - x, c);
    Distributes(y, x, c);
  }

  lemma Commutes(x: real, y: real)
    ensures x * y == y * x
  {
  }

  lemma LargerProduct(a: real, b: real, c: real, d: real)
    requires 0.0 <= a <= c && 0.0 <= b <= d
    ensures a * b <= c * d
    ensures a < c && 0.0 < d ==> a * b < c * d
    ensures 0.0 < c && b < d ==> a * b < c * d
  {
    ScalesUp(a, c, b);
    ScalesUp(b, d, c);
    ScalesUp(b, d, a);
    ScalesUp(a, c, d);
    Commutes(b, c);
    Commutes(d, c);
    Commutes(b, a);
    Commutes(d, a);
  }

  lemma QuotientIs(x: real, y: real, q: real)
    requires y > 0.0 && x == q * y
    ensures x / y == q
  {
    QuotientSigns(x, y);
    CancelFactor(x / y, q, y);
  }

  lemma ProductsCompare(p: real, q: real, c: real, x: real, y: real)
    requires c > 0.0 && p * c == x && q * c == y
    ensures p <= q <==> x <= y
    ensures p < q <==> x < y
  {
    CancelFactor(p, q, c);
  }

  lemma QuotientsCompare(x: real, y: real, c: real)
    requires c > 0.0
    ensures x / c <= y / c <==> x <= y
    ensures x / c < y / c <==> x < y
  {
    QuotientSigns(x, c);
    QuotientSigns(y, c);
    ProductsCompare(x / c, y / c, c, x, y);
  }
}
