/** The compact top-p contract: keep the shortest heaviest prefix and renormalise it in place. */
module Nucleus {
  import opened RealSums
  import opened Sorting

  function At(w: seq<real>, i: int): real {
    if 0 <= i < |w| then w[i] else 0.0
  }

  /** Heavier first, ties by position: the order of a stable descending sort. */
  predicate Heavier(w: seq<real>, i: int, j: int) {
    At(w, i) > At(w, j) || (At(w, i) == At(w, j) && i <= j)
  }

  function Indices(n: nat): (r: seq<int>)
    ensures |r| == n && forall i :: 0 <= i < n ==> r[i] == i
  {
    seq(n, i => i)
  }

  function Order(w: seq<real>): seq<int> {
    Sort(Indices(|w|), (i, j) => Heavier(w, i, j))
  }

  function Gather(w: seq<real>, order: seq<int>): (r: seq<real>)
    ensures |r| == |order|
    ensures forall k :: 0 <= k < |r| ==> r[k] == At(w, order[k])
  {
    seq(|order|, k requires 0 <= k < |order| => At(w, order[k]))
  }

  /** How many of the sorted weights are kept, counting from the first that could be dropped. */
  function KeepFrom(sorted: seq<real>, all: bool, threshold: real, k: nat): (m: nat)
    requires k <= |sorted|
    ensures k <= m <= |sorted|
    decreases |sorted| - k
  {
    if k < |sorted| && (all || Sum(sorted[..k]) < threshold) then KeepFrom(sorted, all, threshold, k + 1) else k
  }

  function Kept(w: seq<real>, topP: real): (m: nat)
    ensures m <= |Order(w)|
  {
    KeepFrom(Gather(w, Order(w)), topP >= 1.0, Times(topP, Sum(w)), 0)
  }

  function KeptMass(w: seq<real>, topP: real): real {
    Sum(Gather(w, Order(w))[..Kept(w, topP)])
  }

  /** Kept weights in their original places, scaled by the kept mass; everything else is zero. */
  function Compact(w: seq<real>, topP: real): (r: seq<real>)
    requires KeptMass(w, topP) != 0.0
    ensures |r| == |w|
  {
    var kept, mass := Order(w)[..Kept(w, topP)], KeptMass(w, topP);
    seq(|w|, i requires 0 <= i < |w| => if i in kept then Ratio(w[i], mass) else 0.0)
  }

  // ----- the order is a permutation -----

  ghost predicate Permutation(order: seq<int>, n: nat) {
    && |order| == n
    && (forall k :: 0 <= k < n ==> 0 <= order[k] < n)
    && (forall k, l :: 0 <= k < l < n ==> order[k] != order[l])
    && (forall i :: 0 <= i < n ==> i in order)
  }

  lemma HeavierOrder(w: seq<real>)
    ensures TotalPreorder((i, j) => Heavier(w, i, j))
  {
  }

  lemma {:induction false} InsertOnce(x: int, s: seq<int>, le: (int, int) -> bool)
    requires x !in s && forall k, l :: 0 <= k < l < |s| ==> s[k] != s[l]
    ensures var r := Insert(x, s, le);
            && |r| == |s| + 1
            && (forall y :: y in r <==> y == x || y in s)
            && (forall k, l :: 0 <= k < l < |r| ==> r[k] != r[l])
  {
    if s != [] && !le(x, s[0]) {
      var rest := Insert(x, s[1..], le);
      InsertOnce(x, s[1..], le);
      assert s == [s[0]] + s[1..] && s[0] !in s[1..];
      assert s[0] in s && s[0] !in rest;
      var r := [s[0]] + rest;
      forall k, l | 0 <= k < l < |r| ensures r[k] != r[l] {
        assert r[l] == rest[l - 1];
      }
    }
  }

  lemma {:induction false} SortOnce(s: seq<int>, le: (int, int) -> bool)
    requires forall k, l :: 0 <= k < l < |s| ==> s[k] != s[l]
    ensures var r := Sort(s, le);
            && |r| == |s|
            && (forall y :: y in r <==> y in s)
            && (forall k, l :: 0 <= k < l < |r| ==> r[k] != r[l])
  {
    if s != [] {
      SortOnce(s[1..], le);
      assert s == [s[0]] + s[1..];
      InsertOnce(s[0], Sort(s[1..], le), le);
    }
  }

  lemma OrderPermutes(w: seq<real>)
    ensures Permutation(Order(w), |w|)
    ensures forall k, l :: 0 <= k < l < |w| ==> Heavier(w, Order(w)[k], Order(w)[l])
  {
    var le := (i, j) => Heavier(w, i, j);
    HeavierOrder(w);
    SortOnce(Indices(|w|), le);
    SortCorrect(Indices(|w|), le);
    var order := Order(w);
    forall k | 0 <= k < |w| ensures 0 <= order[k] < |w| {
      assert order[k] in order;
    }
    forall i | 0 <= i < |w| ensures i in order {
      assert Indices(|w|)[i] == i;
    }
    forall k, l | 0 <= k < l < |w| ensures Heavier(w, order[k], order[l]) {
      assert le(order[k], order[l]);
    }
  }

  /** The order is descending and stable: heavier entries come first, and equal ones keep their places. */
  lemma OrderIsStable(w: seq<real>, k: nat, l: nat)
    requires k < l < |w|
    ensures |Order(w)| == |w|
    ensures var i, j := Order(w)[k], Order(w)[l];
            0 <= i < |w| && 0 <= j < |w| && (w[i] > w[j] || (w[i] == w[j] && i < j))
  {
    OrderPermutes(w);
    assert Heavier(w, Order(w)[k], Order(w)[l]);
    assert Order(w)[k] != Order(w)[l];
  }

  lemma {:induction false} InsertGather(w: seq<real>, x: int, s: seq<int>, le: (int, int) -> bool)
    ensures Sum(Gather(w, Insert(x, s, le))) == At(w, x) + Sum(Gather(w, s))
  {
    if s == [] || le(x, s[0]) {
      assert Gather(w, [x] + s) == [At(w, x)] + Gather(w, s);
      SumAppend([At(w, x)], Gather(w, s));
    } else {
      var rest := Insert(x, s[1..], le);
      InsertGather(w, x, s[1..], le);
      assert Gather(w, [s[0]] + rest) == [At(w, s[0])] + Gather(w, rest);
      assert Gather(w, s) == [At(w, s[0])] + Gather(w, s[1..]);
      SumAppend([At(w, s[0])], Gather(w, rest));
      SumAppend([At(w, s[0])], Gather(w, s[1..]));
    }
  }

  lemma {:induction false} SortGather(w: seq<real>, s: seq<int>, le: (int, int) -> bool)
    ensures Sum(Gather(w, Sort(s, le))) == Sum(Gather(w, s))
  {
    if s != [] {
      SortGather(w, s[1..], le);
      InsertGather(w, s[0], Sort(s[1..], le), le);
      assert Gather(w, s) == [At(w, s[0])] + Gather(w, s[1..]);
      SumAppend([At(w, s[0])], Gather(w, s[1..]));
    }
  }

  /** Summing in sorted order changes nothing, whatever is summed. */
  lemma OrderedSum(w: seq<real>, p: seq<real>)
    requires |p| == |w|
    ensures Sum(Gather(p, Order(w))) == Sum(p)
  {
    SortGather(p, Indices(|w|), (i, j) => Heavier(w, i, j));
    assert Gather(p, Indices(|w|)) == p;
  }

  // ----- the kept prefix -----

  lemma SortedPositive(w: seq<real>)
    requires AllPositive(w)
    ensures AllPositive(Gather(w, Order(w))) && |Gather(w, Order(w))| == |w|
    ensures Sum(Gather(w, Order(w))) == Sum(w)
  {
    OrderPermutes(w);
    OrderedSum(w, w);
  }

  lemma {:induction false} KeepFromMeaning(sorted: seq<real>, all: bool, threshold: real, k: nat)
    requires k <= |sorted|
    ensures var m := KeepFrom(sorted, all, threshold, k);
            && (forall j :: k <= j < m ==> all || Sum(sorted[..j]) < threshold)
            && (m < |sorted| ==> !all && threshold <= Sum(sorted[..m]))
    decreases |sorted| - k
  {
    if k < |sorted| && (all || Sum(sorted[..k]) < threshold) {
      KeepFromMeaning(sorted, all, threshold, k + 1);
    }
  }

  /** Mass of the `m` heaviest weights. */
  function PrefixMass(w: seq<real>, m: nat): real
    requires m <= |Gather(w, Order(w))|
  {
    Sum(Gather(w, Order(w))[..m])
  }

  /** `m` heaviest weights are the fewest that reach the share `topP`; a share of one or more keeps all. */
  ghost predicate ShortestPrefix(w: seq<real>, topP: real, m: nat) {
    && |Gather(w, Order(w))| == |w| && m <= |w|
    && (if topP >= 1.0 then m == |w|
        else Times(topP, Sum(w)) <= PrefixMass(w, m)
             && forall j :: 0 <= j < m ==> PrefixMass(w, j) < Times(topP, Sum(w)))
  }

  lemma ShareAtMost(share: real, whole: real)
    requires 0.0 < share < 1.0 && 0.0 <= whole
    ensures Times(share, whole) <= whole
    ensures 0.0 < whole ==> 0.0 < Times(share, whole)
  {
  }

  lemma KeepIsShortest(sorted: seq<real>, all: bool, threshold: real)
    requires threshold <= Sum(sorted) || all
    ensures var m := KeepFrom(sorted, all, threshold, 0);
            if all then m == |sorted|
            else threshold <= Sum(sorted[..m]) && forall j :: 0 <= j < m ==> Sum(sorted[..j]) < threshold
  {
    KeepFromMeaning(sorted, all, threshold, 0);
    assert sorted[..|sorted|] == sorted;
  }

  lemma KeptIsShortest(w: seq<real>, topP: real)
    requires AllPositive(w) && 0.0 < topP
    ensures ShortestPrefix(w, topP, Kept(w, topP))
  {
    SortedPositive(w);
    SumNonNegative(w);
    if topP < 1.0 {
      ShareAtMost(topP, Sum(w));
    }
    KeepIsShortest(Gather(w, Order(w)), topP >= 1.0, Times(topP, Sum(w)));
  }

  lemma KeptSomething(w: seq<real>, topP: real)
    requires AllPositive(w) && w != [] && 0.0 < topP
    ensures Kept(w, topP) > 0 && KeptMass(w, topP) > 0.0
  {
    KeptIsShortest(w, topP);
    SortedPositive(w);
    SumPositive(w);
    if topP < 1.0 {
      ShareAtMost(topP, Sum(w));
      assert PrefixMass(w, 0) == 0.0;
    }
    SumPositive(Gather(w, Order(w))[..Kept(w, topP)]);
  }

  /** Place `Order(w)[k]` holds its share of the kept mass when `k` is kept and zero otherwise. */
  lemma CompactAt(w: seq<real>, topP: real, k: nat)
    requires k < |w| && KeptMass(w, topP) != 0.0
    ensures |Order(w)| == |w| && 0 <= Order(w)[k] < |w|
    ensures var i := Order(w)[k];
            Compact(w, topP)[i] == if k < Kept(w, topP) then Ratio(w[i], KeptMass(w, topP)) else 0.0
  {
    OrderPermutes(w);
    var order, m := Order(w), Kept(w, topP);
    if k < m {
      assert order[..m][k] == order[k];
    } else {
      assert forall l :: 0 <= l < m ==> order[..m][l] != order[k];
    }
  }

  lemma DivideIsScale(x: real, mass: real)
    requires mass != 0.0
    ensures Ratio(x, mass) == Times(Ratio(1.0, mass), x)
  {
  }

  lemma ScaleUndone(mass: real)
    requires mass != 0.0
    ensures Times(Ratio(1.0, mass), mass) == 1.0
  {
  }

  lemma ScaledPrefix(sorted: seq<real>, scaled: seq<real>, m: nat, c: real)
    requires |scaled| == |sorted| && m <= |sorted| && Times(c, Sum(sorted[..m])) == 1.0
    requires forall k :: 0 <= k < m ==> scaled[k] == Times(c, sorted[k])
    requires forall k :: m <= k < |sorted| ==> scaled[k] == 0.0
    ensures Sum(scaled) == 1.0
  {
    assert scaled == scaled[..m] + scaled[m..];
    SumAppend(scaled[..m], scaled[m..]);
    SumZero(scaled[m..]);
    SumScales(sorted[..m], c, scaled[..m]);
  }

  lemma CompactSorted(w: seq<real>, topP: real)
    requires AllPositive(w) && w != [] && 0.0 < topP
    ensures KeptMass(w, topP) > 0.0
    ensures Sum(Gather(Compact(w, topP), Order(w))) == 1.0
  {
    var order, m, mass := Order(w), Kept(w, topP), KeptMass(w, topP);
    KeptSomething(w, topP);
    OrderPermutes(w);
    var sorted, scaled := Gather(w, order), Gather(Compact(w, topP), order);
    var c := Ratio(1.0, mass);
    ScaleUndone(mass);
    forall k | 0 <= k < m ensures scaled[k] == Times(c, sorted[k]) {
      CompactAt(w, topP, k);
      DivideIsScale(sorted[k], mass);
    }
    forall k | m <= k < |w| ensures scaled[k] == 0.0 {
      CompactAt(w, topP, k);
    }
    ScaledPrefix(sorted, scaled, m, c);
  }

  lemma ShareNonNegative(x: real, mass: real)
    requires 0.0 < x && 0.0 < mass
    ensures 0.0 < Ratio(x, mass)
  {
  }

  /** The result is a distribution. */
  lemma CompactIsDistribution(w: seq<real>, topP: real)
    requires AllPositive(w) && w != [] && 0.0 < topP
    ensures KeptMass(w, topP) > 0.0
    ensures AllNonNegative(Compact(w, topP))
    ensures Sum(Compact(w, topP)) == 1.0
  {
    KeptSomething(w, topP);
    CompactSorted(w, topP);
    OrderedSum(w, Compact(w, topP));
    forall i | 0 <= i < |w| ensures Compact(w, topP)[i] >= 0.0 {
      ShareNonNegative(w[i], KeptMass(w, topP));
    }
  }

  lemma RatiosAgree(x: real, y: real, mass: real)
    requires mass != 0.0
    ensures Times(Ratio(x, mass), y) == Times(Ratio(y, mass), x)
  {
    var c := Ratio(1.0, mass);
    DivideIsScale(x, mass);
    DivideIsScale(y, mass);
    assert (c * x) * y == (c * y) * x;
  }

  /** Kept entries stand in their original ratios. */
  lemma CompactKeepsRatios(w: seq<real>, topP: real, i: nat, j: nat)
    requires i < |w| && j < |w| && AllPositive(w) && 0.0 < topP
    ensures KeptMass(w, topP) > 0.0
    ensures var r := Compact(w, topP);
            r[i] != 0.0 && r[j] != 0.0 ==> Times(r[i], w[j]) == Times(r[j], w[i])
  {
    KeptSomething(w, topP);
    var r, mass := Compact(w, topP), KeptMass(w, topP);
    if r[i] != 0.0 && r[j] != 0.0 {
      assert r[i] == Ratio(w[i], mass) && r[j] == Ratio(w[j], mass);
      RatiosAgree(w[i], w[j], mass);
    }
  }

  /** Without truncation the result is the plain normalisation. */
  lemma CompactAll(w: seq<real>, topP: real, i: nat)
    requires AllPositive(w) && i < |w| && 1.0 <= topP
    ensures KeptMass(w, topP) == Sum(w) > 0.0
    ensures Compact(w, topP)[i] == Ratio(w[i], Sum(w))
  {
    KeptSomething(w, topP);
    KeptIsShortest(w, topP);
    SortedPositive(w);
    OrderPermutes(w);
    var order, sorted := Order(w), Gather(w, Order(w));
    assert sorted[..|w|] == sorted;
    assert order[..|w|] == order;
    assert i in order;
  }

  // ----- the computation -----

  lemma DivideLess(x: real, total: real, p: real)
    requires 0.0 < total
    ensures Ratio(x, total) < p <==> x < Times(p, total)
  {
    var q := x / total;
    assert x == q * total;
    if q < p {
      assert q * total < p * total;
    } else {
      assert q * total >= p * total;
    }
  }

  lemma DivideTwice(x: real, mass: real, total: real)
    requires mass != 0.0 && total != 0.0
    ensures Ratio(mass, total) != 0.0
    ensures Ratio(Ratio(x, total), Ratio(mass, total)) == Ratio(x, mass)
  {
    var a, b, c := x / total, mass / total, x / mass;
    assert a * total == x && b * total == mass && c * mass == x;
    assert c * b * total == a * total;
    assert c * b == a;
  }

  lemma {:induction false} PrefixSums(s: seq<real>, j: nat, k: nat)
    requires j <= k <= |s| && AllPositive(s)
    ensures Sum(s[..j]) <= Sum(s[..k])
  {
    assert s[..k] == s[..j] + s[j..k];
    SumAppend(s[..j], s[j..k]);
    SumNonNegative(s[j..k]);
  }

  lemma KeepFromTest(sorted: seq<real>, all: bool, threshold: real, k: nat)
    requires AllPositive(sorted) && k < |sorted|
    ensures all || Sum(sorted[..k]) < threshold <==> k < KeepFrom(sorted, all, threshold, 0)
  {
    var m := KeepFrom(sorted, all, threshold, 0);
    KeepFromMeaning(sorted, all, threshold, 0);
    if m <= k {
      PrefixSums(sorted, m, k);
    }
  }

  /** The test made on the probability mass before an entry keeps exactly the shortest prefix. */
  lemma KeepTest(w: seq<real>, topP: real, k: nat)
    requires AllPositive(w) && k < |w| && 0.0 < topP
    ensures Sum(w) > 0.0 && |Gather(w, Order(w))| == |w|
    ensures topP >= 1.0 || Ratio(Sum(Gather(w, Order(w))[..k]), Sum(w)) < topP <==> k < Kept(w, topP)
  {
    SumPositive(w);
    SortedPositive(w);
    DivideLess(Sum(Gather(w, Order(w))[..k]), Sum(w), topP);
    KeepFromTest(Gather(w, Order(w)), topP >= 1.0, Times(topP, Sum(w)), k);
  }

  /** The loop before entry `k`: probability mass so far, kept probabilities and kept mass. */
  ghost predicate KeptTo(sorted: seq<real>, total: real, m: nat, k: nat, before: real, kept: seq<real>, mass: real)
    requires k <= |sorted| && m <= |sorted| && total != 0.0
  {
    && before == Ratio(Sum(sorted[..k]), total)
    && mass == Ratio(Sum(sorted[..if k < m then k else m]), total)
    && |kept| == k
    && forall j :: 0 <= j < k ==> kept[j] == KeptEntry(sorted, total, m, j)
  }

  function KeptEntry(sorted: seq<real>, total: real, m: nat, j: nat): real
    requires j < |sorted| && total != 0.0
  {
    if j < m then Ratio(sorted[j], total) else 0.0
  }

  lemma MassNext(sorted: seq<real>, total: real, k: nat)
    requires k < |sorted| && total != 0.0
    ensures Ratio(Sum(sorted[..k]), total) + Ratio(sorted[k], total) == Ratio(Sum(sorted[..k + 1]), total)
  {
    assert sorted[..k + 1] == sorted[..k] + [sorted[k]];
    SumSnoc(sorted[..k], sorted[k]);
    RatioAdds(Sum(sorted[..k]), sorted[k], total);
  }

  lemma KeptNext(sorted: seq<real>, total: real, m: nat, k: nat, before: real, kept: seq<real>, mass: real)
    requires k < |sorted| && m <= |sorted| && total != 0.0 && KeptTo(sorted, total, m, k, before, kept, mass)
    ensures var p := Ratio(sorted[k], total);
            KeptTo(sorted, total, m, k + 1, before + p, kept + [if k < m then p else 0.0],
                   if k < m then mass + p else mass)
  {
    MassNext(sorted, total, k);
  }

  /** Sorted probabilities with the dropped ones set to zero, and their sum. */
  method KeepSorted(w: seq<real>, topP: real) returns (kept: seq<real>, mass: real)
    requires AllPositive(w) && w != [] && 0.0 < topP
    ensures Sum(w) > 0.0 && |kept| == |w| == |Gather(w, Order(w))|
    ensures forall j :: 0 <= j < |w| ==> kept[j] == KeptEntry(Gather(w, Order(w)), Sum(w), Kept(w, topP), j)
    ensures mass == Ratio(KeptMass(w, topP), Sum(w))
  {
    var sorted, total := Gather(w, Order(w)), Sum(w);
    SumPositive(w);
    SortedPositive(w);
    ghost var m := Kept(w, topP);
    var before := 0.0;
    kept, mass := [], 0.0;
    assert KeptTo(sorted, total, m, 0, before, kept, mass);
    for k := 0 to |sorted|
      invariant KeptTo(sorted, total, m, k, before, kept, mass)
    {
      KeepTest(w, topP, k);
      KeptNext(sorted, total, m, k, before, kept, mass);
      var p := Ratio(sorted[k], total);
      if topP >= 1.0 || before < topP {
        kept := kept + [p];
        mass := mass + p;
      } else {
        kept := kept + [0.0];
      }
      before := before + p;
    }
  }

  lemma ScatterValue(w: seq<real>, topP: real, k: nat, p: real, mass: real)
    requires AllPositive(w) && k < |w| && 0.0 < topP && Sum(w) != 0.0 && KeptMass(w, topP) > 0.0
    requires |Order(w)| == |w| && 0 <= Order(w)[k] < |w|
    requires p == KeptEntry(Gather(w, Order(w)), Sum(w), Kept(w, topP), k) && mass == Ratio(KeptMass(w, topP), Sum(w))
    ensures mass != 0.0 && Ratio(p, mass) == Compact(w, topP)[Order(w)[k]]
  {
    var i, kept, total := Order(w)[k], KeptMass(w, topP), Sum(w);
    CompactAt(w, topP, k);
    DivideTwice(w[i], kept, total);
    if k < Kept(w, topP) {
      assert p == Ratio(w[i], total);
    } else {
      ZeroRatio(mass);
    }
  }

  /** The renormalised probabilities in the original places. */
  method CompactProbs(w: seq<real>, topP: real) returns (probs: seq<real>)
    requires AllPositive(w) && w != [] && 0.0 < topP
    ensures KeptMass(w, topP) > 0.0
    ensures probs == Compact(w, topP)
  {
    var order := Order(w);
    OrderPermutes(w);
    KeptSomething(w, topP);
    var kept, mass := KeepSorted(w, topP);
    ghost var target := Compact(w, topP);
    var placed := new real[|w|];
    for k := 0 to |w|
      invariant forall j :: 0 <= j < k ==> placed[order[j]] == target[order[j]]
    {
      ScatterValue(w, topP, k, kept[k], mass);
      placed[order[k]] := Ratio(kept[k], mass);
    }
    probs := placed[..];
    forall i | 0 <= i < |w| ensures probs[i] == target[i] {
      assert i in order;
    }
  }
}
