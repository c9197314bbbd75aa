/** Finite sums of reals. */
module RealSums {

  function Sum(s: seq<real>): real {
    if s == [] then 0.0 else Sum(s[..|s| - 1]) + s[|s| - 1]
  }

  /** Multiplication by name, so that equal factors give equal products. */
  function Times(x: real, y: real): real { x * y }

  /** Division by name, for the same reason. */
  function Ratio(x: real, y: real): real
    requires y != 0.0
  {
    x / y
  }

  lemma TimesAssociates(x: real, y: real, z: real)
    ensures Times(Times(x, y), z) == Times(x, Times(y, z))
  {
  }

  lemma TimesSpreads(x: real, y: real, z: real)
    ensures Times(x + y, z) == Times(x, z) + Times(y, z)
    ensures Times(z, x + y) == Times(z, x) + Times(z, y)
  {
  }

  lemma TimesPositive(x: real, y: real)
    requires x > 0.0 && y > 0.0
    ensures Times(x, y) > 0.0
  {
  }

  /** Dividing by a factor and multiplying by it again. */
  lemma TimesCancels(x: real, m: real, c: real)
    requires m != 0.0
    ensures Times(Ratio(x, m), Times(m, c)) == Times(x, c)
  {
    TimesAssociates(Ratio(x, m), m, c);
    assert (x / m) * m == x;
  }

  lemma ZeroRatio(total: real)
    requires total != 0.0
    ensures Ratio(0.0, total) == 0.0
  {
  }

  lemma SelfRatio(y: real)
    requires y != 0.0
    ensures Ratio(y, y) == 1.0
  {
  }

  lemma RatioAdds(x: real, y: real, total: real)
    requires total != 0.0
    ensures Ratio(x, total) + Ratio(y, total) == Ratio(x + y, total)
  {
  }

  /** A factor is the product divided by the other factor. */
  lemma FactorOf(x: real, y: real)
    requires y != 0.0
    ensures x == Ratio(Times(x, y), y)
  {
  }

  predicate AllNonNegative(s: seq<real>) {
    forall i :: 0 <= i < |s| ==> s[i] >= 0.0
  }

  predicate AllPositive(s: seq<real>) {
    forall i :: 0 <= i < |s| ==> s[i] > 0.0
  }

  lemma SumSnoc(s: seq<real>, x: real)
    ensures Sum(s + [x]) == Sum(s) + x
  {
    assert (s + [x])[..|s|] == s;
  }

  lemma {:induction false} SumAppend(s: seq<real>, t: seq<real>)
    ensures Sum(s + t) == Sum(s) + Sum(t)
  {
    if t == [] {
      assert s + t == s;
    } else {
      var n := |t| - 1;
      SumAppend(s, t[..n]);
      assert s + t == (s + t[..n]) + [t[n]];
      SumSnoc(s + t[..n], t[n]);
    }
  }

  lemma {:induction false} SumNonNegative(s: seq<real>)
    requires AllNonNegative(s)
    ensures Sum(s) >= 0.0
  {
    if s != [] {
      SumNonNegative(s[..|s| - 1]);
    }
  }

  lemma {:induction false} SumPositive(s: seq<real>)
    requires AllPositive(s) && s != []
    ensures Sum(s) > 0.0
  {
    SumNonNegative(s[..|s| - 1]);
  }

  lemma {:induction false} SumMonotone(s: seq<real>, t: seq<real>)
    requires |s| == |t| && forall i :: 0 <= i < |s| ==> s[i] <= t[i]
    ensures Sum(s) <= Sum(t)
  {
    if s != [] {
      SumMonotone(s[..|s| - 1], t[..|t| - 1]);
    }
  }

  lemma {:induction false} SumAdds(s: seq<real>, t: seq<real>, u: seq<real>)
    requires |s| == |t| == |u| && forall i :: 0 <= i < |s| ==> u[i] == s[i] + t[i]
    ensures Sum(u) == Sum(s) + Sum(t)
  {
    if s != [] {
      SumAdds(s[..|s| - 1], t[..|t| - 1], u[..|u| - 1]);
    }
  }

  lemma {:induction false} SumScales(s: seq<real>, c: real, t: seq<real>)
    requires |s| == |t| && forall i :: 0 <= i < |s| ==> t[i] == Times(c, s[i])
    ensures Sum(t) == Times(c, Sum(s))
  {
    if s != [] {
      var n := |s| - 1;
      SumScales(s[..n], c, t[..n]);
      TimesSpreads(Sum(s[..n]), s[n], c);
    }
  }

  lemma {:induction false} SumZero(s: seq<real>)
    requires forall i :: 0 <= i < |s| ==> s[i] == 0.0
    ensures Sum(s) == 0.0
  {
    if s != [] {
      SumZero(s[..|s| - 1]);
    }
  }
}
