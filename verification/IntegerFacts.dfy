/** Products and quotients of natural numbers. */
module IntegerFacts {

  function Product(a: nat, b: nat): nat { a * b }

  function Quotient(a: nat, b: nat): nat
    requires b > 0
  {
    a / b
  }

  lemma Grow(a: nat, b: nat, d: nat)
    requires a <= b
    ensures a * d <= b * d
  {
  }

  lemma QuotientBounds(x: nat, w: nat)
    requires w > 0
    ensures (x / w) * w <= x < (x / w) * w + w && x == (x / w) * w + x % w
  {
    assert x == w * (x / w) + x % w;
  }

  lemma OneMore(n: nat, each: nat)
    ensures n * each + each == (n + 1) * each
  {
  }

  lemma ProductSplits(a: nat, b: nat, d: nat)
    ensures (a + b) * d == a * d + b * d
  {
  }

  /** A number lies in exactly one of the consecutive ranges of width `w`. */
  lemma RangeOf(x: nat, w: nat, r: nat)
    requires w > 0
    ensures r * w <= x < r * w + w <==> r == x / w
  {
    var q := x / w;
    QuotientBounds(x, w);
    if r < q {
      OneMore(r, w);
      Grow(r + 1, q, w);
    } else if q < r {
      OneMore(q, w);
      Grow(q + 1, r, w);
    }
  }

  lemma QuotientBelow(x: nat, w: nat, n: nat)
    requires w > 0 && x < n * w
    ensures x / w < n
  {
    QuotientBounds(x, w);
    if n <= x / w {
      Grow(n, x / w, w);
    }
  }

  lemma QuotientUnique(x: nat, d: nat, q: nat, r: nat)
    requires d > 0 && x == q * d + r && r < d
    ensures x / d == q && x % d == r
  {
    var p := x / d;
    assert x == p * d + x % d;
    assert (p + 1) * d == p * d + d && (q + 1) * d == q * d + d;
    if p < q {
      Grow(p + 1, q, d);
      assert false;
    }
    if q < p {
      Grow(q + 1, p, d);
      assert false;
    }
  }
}
