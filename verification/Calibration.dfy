/** Expected calibration error over equal bins, and the pairwise ranking score. */
module Calibration {
  import opened RealSums
  import opened Options

  datatype Point = Point(prob: real, target: real)

  /** Edge `index` of `bins` equal bins of the unit interval. */
  function Edge(index: nat, bins: nat): real
    requires bins > 0
  {
    Ratio(index as real, bins as real)
  }

  /** Half-open bins, the last one closed. */
  predicate InBin(p: real, index: nat, bins: nat)
    requires index < bins
  {
    && Edge(index, bins) <= p
    && if index + 1 == bins then p <= Edge(index + 1, bins) else p < Edge(index + 1, bins)
  }

  lemma EdgesAscend(index: nat, bins: nat)
    requires bins > 0
    ensures Edge(0, bins) == 0.0 && Edge(bins, bins) == 1.0 && Edge(index, bins) <= Edge(index + 1, bins)
  {
    var b := bins as real;
    RatioStep(index as real, b);
  }

  lemma RatioStep(x: real, b: real)
    requires b > 0.0
    ensures Ratio(x + 1.0, b) == Ratio(x, b) + Ratio(1.0, b) && Ratio(1.0, b) > 0.0
  {
  }

  /** Below edge `index` from zero. */
  predicate Below(p: real, index: nat, bins: nat)
    requires bins > 0
  {
    0.0 <= p < Edge(index, bins)
  }

  lemma {:induction false} EdgeNotNegative(index: nat, bins: nat)
    requires bins > 0
    ensures Edge(index, bins) >= 0.0
  {
    EdgesAscend(if index == 0 then 0 else index - 1, bins);
    if index > 0 {
      EdgeNotNegative(index - 1, bins);
    }
  }

  /** A bin is what lies below its upper edge and not below its lower one. */
  lemma BinSplits(p: real, index: nat, bins: nat)
    requires index + 1 < bins
    ensures InBin(p, index, bins) <==> Below(p, index + 1, bins) && !Below(p, index, bins)
    ensures Below(p, index, bins) ==> Below(p, index + 1, bins)
  {
    EdgesAscend(index, bins);
    EdgeNotNegative(index, bins);
  }

  lemma LastBinSplits(p: real, bins: nat)
    requires bins > 0
    ensures InBin(p, bins - 1, bins) <==> 0.0 <= p <= 1.0 && !Below(p, bins - 1, bins)
    ensures Below(p, bins - 1, bins) ==> 0.0 <= p <= 1.0
  {
    EdgesAscend(bins - 1, bins);
    EdgeNotNegative(bins - 1, bins);
  }

  lemma {:induction false} BelowMeansBinned(p: real, index: nat, bins: nat)
    requires index < bins
    ensures Below(p, index, bins) <==> exists i: nat :: i < index && InBin(p, i, bins)
  {
    if index == 0 {
      EdgesAscend(0, bins);
    } else {
      BelowMeansBinned(p, index - 1, bins);
      BinSplits(p, index - 1, bins);
      if Below(p, index - 1, bins) {
        var i: nat :| i < index - 1 && InBin(p, i, bins);
        assert i < index && InBin(p, i, bins);
      } else if Below(p, index, bins) {
        assert InBin(p, index - 1, bins);
      }
    }
  }

  /** The bins partition the unit interval: a value lies in some bin exactly when it lies in the interval. */
  lemma BinsCover(p: real, bins: nat)
    requires bins > 0
    ensures 0.0 <= p <= 1.0 <==> exists i: nat :: i < bins && InBin(p, i, bins)
  {
    BelowMeansBinned(p, bins - 1, bins);
    LastBinSplits(p, bins);
    if 0.0 <= p <= 1.0 {
      if Below(p, bins - 1, bins) {
        var i: nat :| i < bins - 1 && InBin(p, i, bins);
        assert i < bins && InBin(p, i, bins);
      } else {
        assert InBin(p, bins - 1, bins);
      }
    }
  }

  /** No value lies in two bins. */
  lemma BinsDisjoint(p: real, i: nat, j: nat, bins: nat)
    requires i < j < bins && InBin(p, i, bins)
    ensures !InBin(p, j, bins)
  {
    BelowMeansBinned(p, j, bins);
    if j + 1 < bins {
      BinSplits(p, j, bins);
    } else {
      LastBinSplits(p, bins);
    }
  }

  // ----- the error -----

  function ProbSum(points: seq<Point>, index: nat, bins: nat): real
    requires index < bins
  {
    if points == [] then 0.0
    else
      var n := |points| - 1;
      ProbSum(points[..n], index, bins) + (if InBin(points[n].prob, index, bins) then points[n].prob else 0.0)
  }

  function TargetSum(points: seq<Point>, index: nat, bins: nat): real
    requires index < bins
  {
    if points == [] then 0.0
    else
      var n := |points| - 1;
      TargetSum(points[..n], index, bins) + (if InBin(points[n].prob, index, bins) then points[n].target else 0.0)
  }

  function BinCount(points: seq<Point>, index: nat, bins: nat): nat
    requires index < bins
  {
    if points == [] then 0
    else
      var n := |points| - 1;
      BinCount(points[..n], index, bins) + (if InBin(points[n].prob, index, bins) then 1 else 0)
  }

  function Abs(x: real): real { if x < 0.0 then -x else x }

  /** Excess of predictions over targets in a bin. */
  function Excess(points: seq<Point>, index: nat, bins: nat): real
    requires index < bins
  {
    ProbSum(points, index, bins) - TargetSum(points, index, bins)
  }

  /** Absolute excess over the first `upto` bins. */
  function AbsExcess(points: seq<Point>, upto: nat, bins: nat): real
    requires upto <= bins
  {
    if upto == 0 then 0.0 else AbsExcess(points, upto - 1, bins) + Abs(Excess(points, upto - 1, bins))
  }

  /** What the loop adds for one bin: the gap of the means, weighted by the bin's share. */
  function BinTerm(points: seq<Point>, index: nat, bins: nat): real
    requires index < bins && points != []
  {
    var count := BinCount(points, index, bins);
    if count == 0 then 0.0
    else
      var gap := Abs(Ratio(ProbSum(points, index, bins), count as real)
                     - Ratio(TargetSum(points, index, bins), count as real));
      Ratio(Times(gap, count as real), |points| as real)
  }

  function Terms(points: seq<Point>, upto: nat, bins: nat): real
    requires upto <= bins && points != []
  {
    if upto == 0 then 0.0 else Terms(points, upto - 1, bins) + BinTerm(points, upto - 1, bins)
  }

  /** `None` stands for not-a-number: an empty data set, or one without both classes. */
  type Score = Option<real>

  method Ece(points: seq<Point>, bins: nat) returns (score: Score)
    ensures points == [] ==> score == None
    ensures points != [] ==> score == Some(Ratio(AbsExcess(points, bins, bins), |points| as real))
  {
    if points == [] {
      return None;
    }
    var value := 0.0;
    for index := 0 to bins
      invariant value == Terms(points, index, bins)
    {
      var count: nat, probs, targets := 0, 0.0, 0.0;
      for i := 0 to |points|
        invariant count == BinCount(points[..i], index, bins)
        invariant probs == ProbSum(points[..i], index, bins) && targets == TargetSum(points[..i], index, bins)
      {
        assert points[..i + 1][..i] == points[..i];
        if InBin(points[i].prob, index, bins) {
          count, probs, targets := count + 1, probs + points[i].prob, targets + points[i].target;
        }
      }
      assert points[..|points|] == points;
      if count > 0 {
        var gap := Abs(Ratio(probs, count as real) - Ratio(targets, count as real));
        value := value + Ratio(Times(gap, count as real), |points| as real);
      }
    }
    TermsAreExcess(points, bins, bins);
    score := Some(value);
  }

  lemma GapTimesCount(p: real, t: real, count: real)
    requires count > 0.0
    ensures Times(Abs(Ratio(p, count) - Ratio(t, count)), count) == Abs(p - t)
  {
    var x, y := Ratio(p, count), Ratio(t, count);
    assert x * count == p && y * count == t;
    AbsScales(x - y, count);
    assert (x - y) * count == x * count - y * count;
  }

  lemma AbsScales(x: real, c: real)
    requires c > 0.0
    ensures Times(Abs(x), c) == Abs(x * c)
  {
    if x < 0.0 {
      NegativeProduct(x, c);
      assert (-x) * c == -(x * c);
    } else {
      PositiveProduct(x, c);
    }
  }

  lemma NegativeProduct(x: real, c: real)
    requires x < 0.0 && c > 0.0
    ensures x * c < 0.0
  {
  }

  lemma PositiveProduct(x: real, c: real)
    requires x >= 0.0 && c > 0.0
    ensures x * c >= 0.0
  {
  }

  lemma {:induction false} EmptyBin(points: seq<Point>, index: nat, bins: nat)
    requires index < bins && BinCount(points, index, bins) == 0
    ensures Excess(points, index, bins) == 0.0
  {
    if points != [] {
      EmptyBin(points[..|points| - 1], index, bins);
    }
  }

  lemma {:induction false} TermsAreExcess(points: seq<Point>, upto: nat, bins: nat)
    requires upto <= bins && points != []
    ensures Terms(points, upto, bins) == Ratio(AbsExcess(points, upto, bins), |points| as real)
  {
    var total := |points| as real;
    if upto == 0 {
      ZeroRatio(total);
    } else {
      var index := upto - 1;
      TermsAreExcess(points, index, bins);
      TermIsExcess(points, index, bins);
      RatioAdds(AbsExcess(points, index, bins), Abs(Excess(points, index, bins)), total);
    }
  }

  lemma TermIsExcess(points: seq<Point>, index: nat, bins: nat)
    requires index < bins && points != []
    ensures BinTerm(points, index, bins) == Ratio(Abs(Excess(points, index, bins)), |points| as real)
  {
    var count := BinCount(points, index, bins);
    if count == 0 {
      EmptyBin(points, index, bins);
      ZeroRatio(|points| as real);
    } else {
      GapTimesCount(ProbSum(points, index, bins), TargetSum(points, index, bins), count as real);
    }
  }

  // ----- the error against the means -----

  /** Excess over the first `upto` bins, signed. */
  function ExcessTo(points: seq<Point>, upto: nat, bins: nat): real
    requires upto <= bins
  {
    if upto == 0 then 0.0 else ExcessTo(points, upto - 1, bins) + Excess(points, upto - 1, bins)
  }

  /** Excess over the whole data set. */
  function TotalExcess(points: seq<Point>): real {
    if points == [] then 0.0
    else TotalExcess(points[..|points| - 1]) + (points[|points| - 1].prob - points[|points| - 1].target)
  }

  function AbsGaps(points: seq<Point>): real {
    if points == [] then 0.0
    else AbsGaps(points[..|points| - 1]) + Abs(points[|points| - 1].prob - points[|points| - 1].target)
  }

  lemma {:induction false} ExcessNext(points: seq<Point>, upto: nat, bins: nat)
    requires points != [] && upto < bins
    ensures var last := points[|points| - 1];
            ExcessTo(points, upto, bins) == ExcessTo(points[..|points| - 1], upto, bins)
              + (if Below(last.prob, upto, bins) then last.prob - last.target else 0.0)
  {
    var last := points[|points| - 1];
    if upto == 0 {
      EdgesAscend(0, bins);
    } else {
      ExcessNext(points, upto - 1, bins);
      BinSplits(last.prob, upto - 1, bins);
    }
  }

  lemma {:induction false} NoExcess(upto: nat, bins: nat)
    requires upto <= bins
    ensures ExcessTo([], upto, bins) == 0.0
  {
    if upto > 0 {
      NoExcess(upto - 1, bins);
    }
  }

  predicate Probabilities(points: seq<Point>) {
    forall i :: 0 <= i < |points| ==> 0.0 <= points[i].prob <= 1.0
  }

  /** Probabilities are counted by the bins exactly once. */
  lemma {:induction false} BinsPartition(points: seq<Point>, bins: nat)
    requires bins > 0 && Probabilities(points)
    ensures ExcessTo(points, bins, bins) == TotalExcess(points)
  {
    if points == [] {
      NoExcess(bins, bins);
    } else {
      var n := |points| - 1;
      BinsPartition(points[..n], bins);
      ExcessNext(points, bins - 1, bins);
      LastBinSplits(points[n].prob, bins);
    }
  }

  lemma {:induction false} AbsExcessDominates(points: seq<Point>, upto: nat, bins: nat)
    requires upto <= bins
    ensures AbsExcess(points, upto, bins) >= Abs(ExcessTo(points, upto, bins))
  {
    if upto > 0 {
      AbsExcessDominates(points, upto - 1, bins);
    }
  }

  lemma {:induction false} AbsExcessNext(points: seq<Point>, upto: nat, bins: nat)
    requires points != [] && upto < bins
    ensures var last := points[|points| - 1];
            AbsExcess(points, upto, bins) <= AbsExcess(points[..|points| - 1], upto, bins)
              + (if Below(last.prob, upto, bins) then Abs(last.prob - last.target) else 0.0)
  {
    var last := points[|points| - 1];
    if upto > 0 {
      AbsExcessNext(points, upto - 1, bins);
      BinSplits(last.prob, upto - 1, bins);
    } else {
      EdgesAscend(0, bins);
    }
  }

  lemma {:induction false} AbsExcessWithinGaps(points: seq<Point>, bins: nat)
    requires bins > 0
    ensures AbsExcess(points, bins, bins) <= AbsGaps(points)
  {
    if points == [] {
      NoAbsExcess(bins, bins);
    } else {
      var n := |points| - 1;
      AbsExcessWithinGaps(points[..n], bins);
      AbsExcessNext(points, bins - 1, bins);
      LastBinSplits(points[n].prob, bins);
    }
  }

  lemma {:induction false} NoAbsExcess(upto: nat, bins: nat)
    requires upto <= bins
    ensures AbsExcess([], upto, bins) == 0.0
  {
    if upto > 0 {
      NoAbsExcess(upto - 1, bins);
    }
  }

  lemma RatioMonotone(x: real, y: real, total: real)
    requires x <= y && total > 0.0
    ensures Ratio(x, total) <= Ratio(y, total)
  {
  }

  function ProbTotal(points: seq<Point>): real {
    if points == [] then 0.0 else ProbTotal(points[..|points| - 1]) + points[|points| - 1].prob
  }

  function TargetTotal(points: seq<Point>): real {
    if points == [] then 0.0 else TargetTotal(points[..|points| - 1]) + points[|points| - 1].target
  }

  function PredictedMean(points: seq<Point>): real
    requires points != []
  {
    Ratio(ProbTotal(points), |points| as real)
  }

  function TargetMean(points: seq<Point>): real
    requires points != []
  {
    Ratio(TargetTotal(points), |points| as real)
  }

  lemma {:induction false} ExcessIsDifference(points: seq<Point>)
    ensures TotalExcess(points) == ProbTotal(points) - TargetTotal(points)
  {
    if points != [] {
      ExcessIsDifference(points[..|points| - 1]);
    }
  }

  lemma RatioOfAbs(p: real, t: real, n: real)
    requires n > 0.0
    ensures Ratio(Abs(p - t), n) == Abs(Ratio(p, n) - Ratio(t, n))
  {
    GapTimesCount(p, t, n);
    FactorOf(Abs(Ratio(p, n) - Ratio(t, n)), n);
  }

  /** The error, for every number of bins, lies between the gap of the means and the mean of the gaps. */
  lemma EceBounds(points: seq<Point>, bins: nat)
    requires points != [] && bins > 0 && Probabilities(points)
    ensures Abs(PredictedMean(points) - TargetMean(points))
         <= Ratio(AbsExcess(points, bins, bins), |points| as real)
         <= Ratio(AbsGaps(points), |points| as real)
  {
    var total := |points| as real;
    BinsPartition(points, bins);
    AbsExcessDominates(points, bins, bins);
    AbsExcessWithinGaps(points, bins);
    RatioMonotone(Abs(TotalExcess(points)), AbsExcess(points, bins, bins), total);
    RatioMonotone(AbsExcess(points, bins, bins), AbsGaps(points), total);
    ExcessIsDifference(points);
    RatioOfAbs(ProbTotal(points), TargetTotal(points), total);
  }

  // ----- the ranking score -----

  datatype Labelled = Labelled(score: real, outcome: int)

  /** Scores carrying a label. */
  function WithLabel(items: seq<Labelled>, wanted: int): seq<real> {
    if items == [] then []
    else
      var before, last := WithLabel(items[..|items| - 1], wanted), items[|items| - 1];
      if last.outcome == wanted then before + [last.score] else before
  }

  /** A won comparison counts one, a tie one half. */
  function Win(a: real, b: real): real {
    if a > b then 1.0 else if a == b then 0.5 else 0.0
  }

  function WinsOf(a: real, others: seq<real>): real {
    if others == [] then 0.0 else WinsOf(a, others[..|others| - 1]) + Win(a, others[|others| - 1])
  }

  function Wins(positives: seq<real>, negatives: seq<real>): real {
    if positives == [] then 0.0
    else Wins(positives[..|positives| - 1], negatives) + WinsOf(positives[|positives| - 1], negatives)
  }

  lemma PairsPositive(a: nat, b: nat)
    requires a > 0 && b > 0
    ensures (a * b) as real > 0.0
  {
  }

  /** The share of won comparisons; `None` when a class is missing. */
  function BinaryAuc(items: seq<Labelled>): Score {
    var positives, negatives := WithLabel(items, 1), WithLabel(items, 0);
    if positives == [] || negatives == [] then None
    else
      PairsPositive(|positives|, |negatives|);
      Some(Ratio(Wins(positives, negatives), (|positives| * |negatives|) as real))
  }

  ghost predicate StrictlyIncreasing(f: real -> real) {
    forall x: real, y: real :: x < y ==> f(x) < f(y)
  }

  function Rescored(items: seq<Labelled>, f: real -> real): (r: seq<Labelled>)
    ensures |r| == |items|
    ensures forall i :: 0 <= i < |r| ==> r[i] == Labelled(f(items[i].score), items[i].outcome)
  {
    seq(|items|, i requires 0 <= i < |items| => Labelled(f(items[i].score), items[i].outcome))
  }

  function Mapped(s: seq<real>, f: real -> real): (r: seq<real>)
    ensures |r| == |s| && forall i :: 0 <= i < |r| ==> r[i] == f(s[i])
  {
    seq(|s|, i requires 0 <= i < |s| => f(s[i]))
  }

  lemma {:induction false} LabelsFollow(items: seq<Labelled>, f: real -> real, wanted: int)
    ensures WithLabel(Rescored(items, f), wanted) == Mapped(WithLabel(items, wanted), f)
  {
    if items != [] {
      LabelsFollow(items[..|items| - 1], f, wanted);
      assert Rescored(items, f)[..|items| - 1] == Rescored(items[..|items| - 1], f);
    }
  }

  lemma WinFollows(a: real, b: real, f: real -> real)
    requires StrictlyIncreasing(f)
    ensures Win(f(a), f(b)) == Win(a, b)
  {
  }

  lemma {:induction false} WinsOfFollow(a: real, others: seq<real>, f: real -> real)
    requires StrictlyIncreasing(f)
    ensures WinsOf(f(a), Mapped(others, f)) == WinsOf(a, others)
  {
    if others != [] {
      var n := |others| - 1;
      WinsOfFollow(a, others[..n], f);
      WinFollows(a, others[n], f);
      assert Mapped(others, f)[..n] == Mapped(others[..n], f);
    }
  }

  lemma {:induction false} WinsFollow(positives: seq<real>, negatives: seq<real>, f: real -> real)
    requires StrictlyIncreasing(f)
    ensures Wins(Mapped(positives, f), Mapped(negatives, f)) == Wins(positives, negatives)
  {
    if positives != [] {
      var n := |positives| - 1;
      WinsFollow(positives[..n], negatives, f);
      WinsOfFollow(positives[n], negatives, f);
      assert Mapped(positives, f)[..n] == Mapped(positives[..n], f);
    }
  }

  /** The ranking score sees only the order of the scores. */
  lemma AucFollowsOrder(items: seq<Labelled>, f: real -> real)
    requires StrictlyIncreasing(f)
    ensures BinaryAuc(Rescored(items, f)) == BinaryAuc(items)
  {
    LabelsFollow(items, f, 0);
    LabelsFollow(items, f, 1);
    WinsFollow(WithLabel(items, 1), WithLabel(items, 0), f);
  }

  function Scaled(temperature: real): real -> real
    requires temperature > 0.0
  {
    x => Ratio(x, temperature)
  }

  lemma RatioStrict(x: real, y: real, t: real)
    requires x < y && t > 0.0
    ensures Ratio(x, t) < Ratio(y, t)
  {
  }

  lemma ScalingIncreases(temperature: real)
    requires temperature > 0.0
    ensures StrictlyIncreasing(Scaled(temperature))
  {
    forall x: real, y: real | x < y ensures Scaled(temperature)(x) < Scaled(temperature)(y) {
      RatioStrict(x, y, temperature);
    }
  }

  /** Calibrating the temperature never changes the ranking score of the squashed logits. */
  lemma AucIgnoresTemperature(logits: seq<Labelled>, squash: real -> real, temperature: real)
    requires StrictlyIncreasing(squash) && temperature > 0.0
    ensures BinaryAuc(Rescored(Rescored(logits, Scaled(temperature)), squash)) == BinaryAuc(logits)
  {
    ScalingIncreases(temperature);
    AucFollowsOrder(Rescored(logits, Scaled(temperature)), squash);
    AucFollowsOrder(logits, Scaled(temperature));
  }

  lemma {:induction false} WinsOfSplit(b: real, positives: seq<real>, negatives: seq<real>)
    ensures Wins(positives, negatives + [b]) + WinsOf(b, positives) == Wins(positives, negatives) + |positives| as real
  {
    if positives != [] {
      var n := |positives| - 1;
      WinsOfSplit(b, positives[..n], negatives);
      assert (negatives + [b])[..|negatives|] == negatives;
    }
  }

  lemma {:induction false} WinsNone(positives: seq<real>)
    ensures Wins(positives, []) == 0.0
  {
    if positives != [] {
      WinsNone(positives[..|positives| - 1]);
    }
  }

  lemma {:induction false} WinsComplement(positives: seq<real>, negatives: seq<real>)
    ensures Wins(positives, negatives) + Wins(negatives, positives) == (|positives| * |negatives|) as real
  {
    if negatives == [] {
      WinsNone(positives);
    } else {
      var n := |negatives| - 1;
      WinsComplement(positives, negatives[..n]);
      WinsOfSplit(negatives[n], positives, negatives[..n]);
      assert negatives == negatives[..n] + [negatives[n]];
      assert |positives| * (n + 1) == |positives| * n + |positives|;
    }
  }

  function Flipped(items: seq<Labelled>): (r: seq<Labelled>)
    ensures |r| == |items|
    ensures forall i :: 0 <= i < |r| ==> r[i] == items[i].(outcome := 1 - items[i].outcome)
  {
    seq(|items|, i requires 0 <= i < |items| => items[i].(outcome := 1 - items[i].outcome))
  }

  lemma {:induction false} FlippedLabels(items: seq<Labelled>, wanted: int)
    ensures WithLabel(Flipped(items), wanted) == WithLabel(items, 1 - wanted)
  {
    if items != [] {
      FlippedLabels(items[..|items| - 1], wanted);
      assert Flipped(items)[..|items| - 1] == Flipped(items[..|items| - 1]);
    }
  }

  /** Ties count half on both sides: exchanging the classes mirrors the score at one half. */
  lemma AucMirrors(items: seq<Labelled>)
    ensures BinaryAuc(items).Some? <==> BinaryAuc(Flipped(items)).Some?
    ensures BinaryAuc(items).Some? ==> BinaryAuc(items).value + BinaryAuc(Flipped(items)).value == 1.0
  {
    FlippedLabels(items, 0);
    FlippedLabels(items, 1);
    var positives, negatives := WithLabel(items, 1), WithLabel(items, 0);
    if positives != [] && negatives != [] {
      PairsPositive(|positives|, |negatives|);
      WinsComplement(positives, negatives);
      var pairs := (|positives| * |negatives|) as real;
      assert |negatives| * |positives| == |positives| * |negatives|;
      RatioAdds(Wins(positives, negatives), Wins(negatives, positives), pairs);
      SelfRatio(pairs);
    }
  }

  lemma {:induction false} WinsOfAll(a: real, others: seq<real>)
    ensures WinsOf(a, others) <= |others| as real
    ensures WinsOf(a, others) == |others| as real <==> forall j :: 0 <= j < |others| ==> a > others[j]
  {
    if others != [] {
      var n := |others| - 1;
      WinsOfAll(a, others[..n]);
      assert others == others[..n] + [others[n]];
    }
  }

  ghost predicate BeatsAll(positives: seq<real>, negatives: seq<real>) {
    forall i, j :: 0 <= i < |positives| && 0 <= j < |negatives| ==> positives[i] > negatives[j]
  }

  lemma {:induction false} WinsAll(positives: seq<real>, negatives: seq<real>)
    ensures Wins(positives, negatives) <= (|positives| * |negatives|) as real
    ensures Wins(positives, negatives) == (|positives| * |negatives|) as real <==> BeatsAll(positives, negatives)
  {
    if positives != [] {
      var n := |positives| - 1;
      WinsAll(positives[..n], negatives);
      WinsOfAll(positives[n], negatives);
      assert |positives| * |negatives| == n * |negatives| + |negatives|;
      BeatsAllNext(positives, negatives);
    }
  }

  lemma BeatsAllNext(positives: seq<real>, negatives: seq<real>)
    requires positives != []
    ensures var n := |positives| - 1;
            BeatsAll(positives, negatives) <==>
            BeatsAll(positives[..n], negatives) && forall j :: 0 <= j < |negatives| ==> positives[n] > negatives[j]
  {
    var n := |positives| - 1;
    assert positives == positives[..n] + [positives[n]];
    if BeatsAll(positives[..n], negatives) && forall j :: 0 <= j < |negatives| ==> positives[n] > negatives[j] {
      forall i, j | 0 <= i < |positives| && 0 <= j < |negatives| ensures positives[i] > negatives[j] {
        if i < n {
          assert positives[..n][i] > negatives[j];
        }
      }
    }
  }

  lemma {:induction false} LabelMember(items: seq<Labelled>, wanted: int, x: real)
    ensures x in WithLabel(items, wanted) <==> exists i :: 0 <= i < |items| && items[i] == Labelled(x, wanted)
  {
    if items != [] {
      var n := |items| - 1;
      LabelMember(items[..n], wanted, x);
      assert items == items[..n] + [items[n]];
      if exists i :: 0 <= i < n && items[..n][i] == Labelled(x, wanted) {
        var i :| 0 <= i < n && items[..n][i] == Labelled(x, wanted);
        assert items[i] == Labelled(x, wanted);
      }
      if exists i :: 0 <= i < |items| && items[i] == Labelled(x, wanted) {
        var i :| 0 <= i < |items| && items[i] == Labelled(x, wanted);
        assert i < n ==> items[..n][i] == Labelled(x, wanted);
      }
    }
  }

  /** Every item of class one scores above every item of class zero. */
  ghost predicate Separated(items: seq<Labelled>) {
    forall a, b :: a in items && b in items && a.outcome == 1 && b.outcome == 0 ==> a.score > b.score
  }

  lemma SeparatedScores(items: seq<Labelled>)
    ensures Separated(items) <==> BeatsAll(WithLabel(items, 1), WithLabel(items, 0))
  {
    var positives, negatives := WithLabel(items, 1), WithLabel(items, 0);
    if Separated(items) {
      forall i, j | 0 <= i < |positives| && 0 <= j < |negatives| ensures positives[i] > negatives[j] {
        LabelMember(items, 1, positives[i]);
        LabelMember(items, 0, negatives[j]);
        assert Labelled(positives[i], 1) in items && Labelled(negatives[j], 0) in items;
      }
    }
    if BeatsAll(positives, negatives) {
      forall a, b | a in items && b in items && a.outcome == 1 && b.outcome == 0 ensures a.score > b.score {
        LabelMember(items, 1, a.score);
        LabelMember(items, 0, b.score);
        assert a == Labelled(a.score, 1) && b == Labelled(b.score, 0);
      }
    }
  }

  /** The score is one exactly when the accepted all rank above the rejected. */
  lemma AucPerfectIff(items: seq<Labelled>)
    requires BinaryAuc(items).Some?
    ensures BinaryAuc(items).value <= 1.0
    ensures BinaryAuc(items).value == 1.0 <==> Separated(items)
  {
    var positives, negatives := WithLabel(items, 1), WithLabel(items, 0);
    PairsPositive(|positives|, |negatives|);
    WinsAll(positives, negatives);
    SeparatedScores(items);
    ShareOfAll(Wins(positives, negatives), (|positives| * |negatives|) as real);
  }

  lemma ShareOfAll(x: real, total: real)
    requires x <= total && total > 0.0
    ensures Ratio(x, total) <= 1.0 && (Ratio(x, total) == 1.0 <==> x == total)
  {
    SelfRatio(total);
    if x < total {
      RatioStrict(x, total, total);
    }
  }

  // ----- which bin, and when bins keep points apart -----

  /** The bin of a probability: the whole part of its share of the bins, the last bin for one. */
  function BinOf(p: real, bins: nat): int {
    var share := Times(p, bins as real).Floor;
    if share < bins then share else bins - 1
  }

  lemma AtMostEdge(index: nat, bins: nat, p: real)
    requires bins > 0
    ensures Edge(index, bins) <= p <==> index as real <= Times(p, bins as real)
  {
    var b, q := bins as real, Edge(index, bins);
    assert q * b == index as real;
    if q <= p {
      ScaleUp(q, p, b);
    } else {
      ScaleUpStrict(p, q, b);
    }
  }

  lemma ScaleUp(x: real, y: real, b: real)
    requires x <= y && b > 0.0
    ensures x * b <= y * b
  {
  }

  lemma ScaleUpStrict(x: real, y: real, b: real)
    requires x < y && b > 0.0
    ensures x * b < y * b
  {
  }

  /** The bins have equal width: a probability lies in the bin of its share and in no other. */
  lemma BinIsShare(p: real, index: nat, bins: nat)
    requires index < bins
    ensures InBin(p, index, bins) <==> 0.0 <= p <= 1.0 && index == BinOf(p, bins)
  {
    var b, share := bins as real, Times(p, bins as real);
    AtMostEdge(index, bins, p);
    AtMostEdge(index + 1, bins, p);
    AtMostEdge(0, bins, p);
    AtMostEdge(bins, bins, p);
    EdgesAscend(index, bins);
    LastEdge(p, bins);
  }

  lemma LastEdge(p: real, bins: nat)
    requires bins > 0
    ensures p <= Edge(bins, bins) <==> Times(p, bins as real) <= bins as real
  {
    EdgesAscend(0, bins);
    if p <= 1.0 {
      ScaleUp(p, 1.0, bins as real);
    } else {
      ScaleUpStrict(1.0, p, bins as real);
    }
  }

  /** The last point is alone in its bin. */
  ghost predicate LastApart(points: seq<Point>, bins: nat)
    requires points != []
  {
    var n := |points| - 1;
    forall i, index: nat :: 0 <= i < n && index < bins && InBin(points[n].prob, index, bins) ==>
      !InBin(points[i].prob, index, bins)
  }

  lemma {:induction false} NobodyThere(points: seq<Point>, index: nat, bins: nat)
    requires index < bins && forall i :: 0 <= i < |points| ==> !InBin(points[i].prob, index, bins)
    ensures BinCount(points, index, bins) == 0
  {
    if points != [] {
      NobodyThere(points[..|points| - 1], index, bins);
    }
  }

  lemma LastBinTerm(points: seq<Point>, index: nat, bins: nat)
    requires points != [] && LastApart(points, bins) && index < bins
    ensures var before, last := points[..|points| - 1], points[|points| - 1];
            Abs(Excess(points, index, bins)) == Abs(Excess(before, index, bins))
              + (if InBin(last.prob, index, bins) then Abs(last.prob - last.target) else 0.0)
  {
    var before, last := points[..|points| - 1], points[|points| - 1];
    if InBin(last.prob, index, bins) {
      forall i | 0 <= i < |before| ensures !InBin(before[i].prob, index, bins) {
        assert !InBin(points[i].prob, index, bins);
      }
      NobodyThere(before, index, bins);
      EmptyBin(before, index, bins);
    }
  }

  lemma {:induction false} ApartAdds(points: seq<Point>, upto: nat, bins: nat)
    requires points != [] && LastApart(points, bins) && upto < bins
    ensures var before, last := points[..|points| - 1], points[|points| - 1];
            AbsExcess(points, upto, bins) == AbsExcess(before, upto, bins)
              + (if Below(last.prob, upto, bins) then Abs(last.prob - last.target) else 0.0)
  {
    var last := points[|points| - 1];
    if upto == 0 {
      EdgesAscend(0, bins);
    } else {
      ApartAdds(points, upto - 1, bins);
      LastBinTerm(points, upto - 1, bins);
      BinSplits(last.prob, upto - 1, bins);
    }
  }

  /** When no two points share a bin the error is the mean of the gaps. */
  lemma {:induction false} ApartIsMeanGap(points: seq<Point>, bins: nat)
    requires bins > 0 && Probabilities(points)
    requires forall n :: 0 < n <= |points| ==> LastApart(points[..n], bins)
    ensures AbsExcess(points, bins, bins) == AbsGaps(points)
  {
    if points == [] {
      NoAbsExcess(bins, bins);
    } else {
      var n := |points| - 1;
      forall k | 0 < k <= n ensures LastApart(points[..n][..k], bins) {
        assert points[..n][..k] == points[..k];
        assert LastApart(points[..k], bins);
      }
      ApartIsMeanGap(points[..n], bins);
      assert points[..n + 1] == points && LastApart(points[..n + 1], bins);
      ApartAdds(points, bins - 1, bins);
      LastBinTerm(points, bins - 1, bins);
      LastBinSplits(points[n].prob, bins);
    }
  }
}
