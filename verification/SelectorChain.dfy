/**
 * Backward messages on a chain of candidate lattices. Scores are kept as positive weights, so that a
 * log-sum-exp is a sum and subtracting a maximum is a division by it.
 */
module SelectorChain {
  import opened RealSums
  import opened Nucleus

  /** `w[step][i][j]` weighs candidate `j` of `step` after candidate `i` of the step before. */
  type Lattice = seq<seq<seq<real>>>

  ghost predicate Chain(w: Lattice, k: nat) {
    && 0 < k
    && (forall s :: 0 <= s < |w| ==> |w[s]| == k)
    && (forall s, i :: 0 <= s < |w| && 0 <= i < k ==> |w[s][i]| == k && AllPositive(w[s][i]))
  }

  function Products(row: seq<real>, f: seq<real>): (r: seq<real>)
    requires |row| == |f|
    ensures |r| == |row| && forall j :: 0 <= j < |r| ==> r[j] == Times(row[j], f[j])
  {
    seq(|row|, j requires 0 <= j < |row| => Times(row[j], f[j]))
  }

  function Largest(s: seq<real>): (m: real)
    requires s != []
    ensures m in s && forall i :: 0 <= i < |s| ==> s[i] <= m
  {
    if |s| == 1 then s[0]
    else
      var rest := Largest(s[..|s| - 1]);
      if rest < s[|s| - 1] then s[|s| - 1] else rest
  }

  function Scaled(s: seq<real>, m: real): (r: seq<real>)
    requires m != 0.0
    ensures |r| == |s| && forall i :: 0 <= i < |r| ==> r[i] == Ratio(s[i], m)
  {
    seq(|s|, i requires 0 <= i < |s| => Ratio(s[i], m))
  }

  function Ones(k: nat): (r: seq<real>)
    ensures |r| == k && forall i :: 0 <= i < k ==> r[i] == 1.0
  {
    seq(k, i => 1.0)
  }

  /** For each predecessor, the total weight of the next step times its message. */
  function Pulled(rows: seq<seq<real>>, f: seq<real>): (r: seq<real>)
    requires forall i :: 0 <= i < |rows| ==> |rows[i]| == |f|
    ensures |r| == |rows| && forall i :: 0 <= i < |r| ==> r[i] == Sum(Products(rows[i], f))
  {
    seq(|rows|, i requires 0 <= i < |rows| => Sum(Products(rows[i], f)))
  }

  // ----- the messages -----

  lemma ProductsPositive(row: seq<real>, f: seq<real>)
    requires |row| == |f| && AllPositive(row) && AllPositive(f)
    ensures AllPositive(Products(row, f))
  {
    forall j | 0 <= j < |row| ensures Products(row, f)[j] > 0.0 {
      TimesPositive(row[j], f[j]);
    }
  }

  lemma PulledPositive(rows: seq<seq<real>>, f: seq<real>)
    requires f != [] && AllPositive(f)
    requires forall i :: 0 <= i < |rows| ==> |rows[i]| == |f| && AllPositive(rows[i])
    ensures AllPositive(Pulled(rows, f))
  {
    forall i | 0 <= i < |rows| ensures Pulled(rows, f)[i] > 0.0 {
      ProductsPositive(rows[i], f);
      SumPositive(Products(rows[i], f));
    }
  }

  /** One backward step: pull through the next lattice and divide by the largest entry. */
  function Pull(rows: seq<seq<real>>, f: seq<real>): (r: seq<real>)
    requires f != [] && AllPositive(f) && rows != []
    requires forall i :: 0 <= i < |rows| ==> |rows[i]| == |f| && AllPositive(rows[i])
    ensures |r| == |rows| && AllPositive(r)
  {
    PulledPositive(rows, f);
    var pulled := Pulled(rows, f);
    var m := Largest(pulled);
    ScaledPositive(pulled, m);
    Scaled(pulled, m)
  }

  lemma ScaledPositive(s: seq<real>, m: real)
    requires AllPositive(s) && m > 0.0
    ensures AllPositive(Scaled(s, m))
  {
    forall i | 0 <= i < |s| ensures Scaled(s, m)[i] > 0.0 {
      ShareNonNegative(s[i], m);
    }
  }

  function Message(w: Lattice, k: nat, step: nat): (r: seq<real>)
    requires Chain(w, k) && step < |w|
    ensures |r| == k && AllPositive(r)
    decreases |w| - step
  {
    if step == |w| - 1 then Ones(k) else Pull(w[step + 1], Message(w, k, step + 1))
  }

  /** From `step` on every entry is the message of its step. */
  ghost predicate FilledFrom(future: seq<seq<real>>, w: Lattice, k: nat, step: nat)
    requires Chain(w, k)
  {
    |future| == |w| && forall s :: step <= s < |w| ==> future[s] == Message(w, k, s)
  }

  predicate Fits(rows: seq<seq<real>>, f: seq<real>) {
    forall i :: 0 <= i < |rows| ==> |rows[i]| == |f|
  }

  lemma FillStep(future: seq<seq<real>>, w: Lattice, k: nat, step: nat)
    requires Chain(w, k) && step + 1 < |w| && FilledFrom(future, w, k, step + 1)
    ensures Fits(w[step + 1], future[step + 1])
    ensures var values := Pulled(w[step + 1], future[step + 1]);
            && values != [] && Largest(values) > 0.0
            && FilledFrom(future[step := Scaled(values, Largest(values))], w, k, step)
  {
    var next := future[step + 1];
    assert next == Message(w, k, step + 1);
    PulledPositive(w[step + 1], next);
    assert Message(w, k, step) == Pull(w[step + 1], next);
  }

  method BackwardMessages(w: Lattice, k: nat) returns (future: seq<seq<real>>)
    requires Chain(w, k)
    ensures |future| == |w|
    ensures forall s :: 0 <= s < |w| ==> future[s] == Message(w, k, s)
  {
    future := seq(|w|, s => Ones(k));
    if |w| == 0 {
      return;
    }
    for step := |w| - 1 downto 0
      invariant FilledFrom(future, w, k, step)
    {
      FillStep(future, w, k, step);
      var values := Pulled(w[step + 1], future[step + 1]);
      future := future[step := Scaled(values, Largest(values))];
    }
  }

  // ----- enumeration of all paths -----

  function Prepend(j: int, tails: seq<seq<int>>): (r: seq<seq<int>>)
    ensures |r| == |tails| && forall t :: 0 <= t < |r| ==> r[t] == [j] + tails[t]
  {
    seq(|tails|, t requires 0 <= t < |tails| => [j] + tails[t])
  }

  function FanOut(n: nat, tails: seq<seq<int>>): seq<seq<int>> {
    if n == 0 then [] else FanOut(n - 1, tails) + Prepend(n - 1, tails)
  }

  /** Every choice of one of `k` candidates at each of `length` steps. */
  function Paths(k: nat, length: nat): seq<seq<int>> {
    if length == 0 then [[]] else FanOut(k, Paths(k, length - 1))
  }

  predicate IsPath(p: seq<int>, k: nat, length: nat) {
    |p| == length && forall i :: 0 <= i < |p| ==> 0 <= p[i] < k
  }

  lemma {:induction false} FanOutMember(n: nat, tails: seq<seq<int>>, p: seq<int>)
    ensures p in FanOut(n, tails) <==> p != [] && 0 <= p[0] < n && p[1..] in tails
  {
    if n > 0 {
      FanOutMember(n - 1, tails, p);
      PrependMember(n - 1, tails, p);
    }
  }

  lemma PrependMember(j: int, tails: seq<seq<int>>, p: seq<int>)
    ensures p in Prepend(j, tails) <==> p != [] && p[0] == j && p[1..] in tails
  {
    if p in Prepend(j, tails) {
      var t :| 0 <= t < |tails| && Prepend(j, tails)[t] == p;
      assert p[1..] == tails[t];
    }
    if p != [] && p[0] == j && p[1..] in tails {
      var t :| 0 <= t < |tails| && tails[t] == p[1..];
      assert Prepend(j, tails)[t] == p;
    }
  }

  /** The enumeration misses nothing and adds nothing. */
  lemma {:induction false} PathsComplete(k: nat, length: nat, p: seq<int>)
    ensures p in Paths(k, length) <==> IsPath(p, k, length)
  {
    if length > 0 {
      FanOutMember(k, Paths(k, length - 1), p);
      if p != [] {
        PathsComplete(k, length - 1, p[1..]);
        assert p == [p[0]] + p[1..];
        assert IsPath(p, k, length) ==> IsPath(p[1..], k, length - 1);
      }
    }
  }

  predicate Distinct(paths: seq<seq<int>>) {
    forall s, t :: 0 <= s < t < |paths| ==> paths[s] != paths[t]
  }

  lemma {:induction false} FanOutDistinct(n: nat, tails: seq<seq<int>>)
    requires Distinct(tails)
    ensures Distinct(FanOut(n, tails))
  {
    if n > 0 {
      FanOutDistinct(n - 1, tails);
      var left, right := FanOut(n - 1, tails), Prepend(n - 1, tails);
      forall s, t | 0 <= s < |left| && 0 <= t < |right| ensures left[s] != right[t] {
        FanOutMember(n - 1, tails, left[s]);
        assert left[s] in left;
      }
      forall s, t | 0 <= s < t < |right| ensures right[s] != right[t] {
        assert right[s][1..] == tails[s] && right[t][1..] == tails[t];
      }
    }
  }

  /** No path is listed twice. */
  lemma {:induction false} PathsDistinct(k: nat, length: nat)
    ensures Distinct(Paths(k, length))
  {
    if length > 0 {
      PathsDistinct(k, length - 1);
      FanOutDistinct(k, Paths(k, length - 1));
    }
  }

  // ----- sums over paths -----

  /** Sum of a weight over a list of paths. */
  function Over(f: seq<int> -> real, paths: seq<seq<int>>): real {
    if paths == [] then 0.0 else Over(f, paths[..|paths| - 1]) + f(paths[|paths| - 1])
  }

  lemma {:induction false} OverAppend(f: seq<int> -> real, left: seq<seq<int>>, right: seq<seq<int>>)
    ensures Over(f, left + right) == Over(f, left) + Over(f, right)
  {
    if right == [] {
      assert left + right == left;
    } else {
      var n := |right| - 1;
      OverAppend(f, left, right[..n]);
      assert (left + right)[..|left + right| - 1] == left + right[..n];
    }
  }

  lemma {:induction false} OverPrepend(f: seq<int> -> real, g: seq<int> -> real, c: real, j: int, tails: seq<seq<int>>)
    requires forall t :: 0 <= t < |tails| ==> f([j] + tails[t]) == Times(c, g(tails[t]))
    ensures Over(f, Prepend(j, tails)) == Times(c, Over(g, tails))
  {
    if tails != [] {
      var n := |tails| - 1;
      OverPrepend(f, g, c, j, tails[..n]);
      assert Prepend(j, tails)[..n] == Prepend(j, tails[..n]);
      TimesSpreads(Over(g, tails[..n]), g(tails[n]), c);
    }
  }

  lemma {:induction false} OverFanOut(f: seq<int> -> real, tails: seq<seq<int>>, parts: seq<real>)
    requires forall j :: 0 <= j < |parts| ==> Over(f, Prepend(j, tails)) == parts[j]
    ensures Over(f, FanOut(|parts|, tails)) == Sum(parts)
  {
    if parts != [] {
      var n := |parts| - 1;
      OverFanOut(f, tails, parts[..n]);
      OverAppend(f, FanOut(n, tails), Prepend(n, tails));
    }
  }

  /** The product of the weights along a path that continues from candidate `from`. */
  function PathWeight(w: Lattice, step: int, from: int, p: seq<int>): real
    decreases |p|
  {
    if p == [] then 1.0 else Times(Edge(w, step, from, p[0]), PathWeight(w, step + 1, p[0], p[1..]))
  }

  function Edge(w: Lattice, step: int, i: int, j: int): real {
    if 0 <= step < |w| && 0 <= i < |w[step]| && 0 <= j < |w[step][i]| then w[step][i][j] else 0.0
  }

  /** Total weight of all ways to continue from candidate `from` through the steps `step`, `step + 1`, ... */
  function Total(w: Lattice, k: nat, step: nat, from: int): real
    requires step <= |w|
  {
    Over(p => PathWeight(w, step, from, p), Paths(k, |w| - step))
  }

  // ----- the enumeration obeys the backward recursion -----

  type Totals = (int, int) -> real

  function Column(t: Totals, step: int, k: nat): (r: seq<real>)
    ensures |r| == k && forall j :: 0 <= j < k ==> r[j] == t(step, j)
  {
    seq(k, j requires 0 <= j < k => t(step, j))
  }

  /** `t` is one after the last step and obeys the backward recursion before it. */
  ghost predicate Solves(t: Totals, w: Lattice, k: nat)
    requires Chain(w, k)
  {
    && (forall i :: 0 <= i < k ==> t(|w|, i) == 1.0)
    && (forall s, i :: 0 <= s < |w| && 0 <= i < k ==> SolvesAt(t, w, k, s, i))
  }

  ghost predicate SolvesAt(t: Totals, w: Lattice, k: nat, step: nat, from: nat)
    requires Chain(w, k) && step < |w| && from < k
  {
    t(step, from) == Sum(Products(w[step][from], Column(t, step + 1, k)))
  }

  ghost function TotalsOf(w: Lattice, k: nat): Totals {
    (step, from) => if 0 <= step <= |w| then Total(w, k, step, from) else 0.0
  }

  lemma TotalUnfolds(w: Lattice, k: nat, step: nat, from: nat)
    requires Chain(w, k) && step < |w| && from < k
    ensures Total(w, k, step, from) == Sum(Products(w[step][from], Column(TotalsOf(w, k), step + 1, k)))
  {
    var tails := Paths(k, |w| - step - 1);
    var f := p => PathWeight(w, step, from, p);
    var parts := Products(w[step][from], Column(TotalsOf(w, k), step + 1, k));
    forall j | 0 <= j < k ensures Over(f, Prepend(j, tails)) == parts[j] {
      PrependTotal(w, k, step, from, j);
    }
    OverFanOut(f, tails, parts);
  }

  lemma PrependTotal(w: Lattice, k: nat, step: nat, from: nat, j: nat)
    requires Chain(w, k) && step < |w| && from < k && j < k
    ensures Over(p => PathWeight(w, step, from, p), Prepend(j, Paths(k, |w| - step - 1)))
         == Times(w[step][from][j], Total(w, k, step + 1, j))
  {
    var tails := Paths(k, |w| - step - 1);
    var f, g := p => PathWeight(w, step, from, p), p => PathWeight(w, step + 1, j, p);
    forall t | 0 <= t < |tails| ensures f([j] + tails[t]) == Times(w[step][from][j], g(tails[t])) {
      assert ([j] + tails[t])[1..] == tails[t];
    }
    OverPrepend(f, g, w[step][from][j], j, tails);
  }

  lemma TotalEnds(w: Lattice, k: nat, from: int)
    ensures Total(w, k, |w|, from) == 1.0
  {
    var f := p => PathWeight(w, |w|, from, p);
    var only: seq<seq<int>> := [[]];
    assert only[..0] == [] && Over(f, only) == Over(f, []) + f([]);
  }

  /** The sums over all enumerated paths solve the backward recursion. */
  lemma PathSumsSolve(w: Lattice, k: nat)
    requires Chain(w, k)
    ensures Solves(TotalsOf(w, k), w, k)
  {
    var t := TotalsOf(w, k);
    forall i | 0 <= i < k ensures t(|w|, i) == 1.0 {
      TotalEnds(w, k, i);
    }
    forall s, i | 0 <= s < |w| && 0 <= i < k ensures SolvesAt(t, w, k, s, i) {
      TotalUnfolds(w, k, s, i);
    }
  }

  // ----- messages solve it up to one factor per step -----

  lemma {:induction false} ProductsScale(row: seq<real>, f: seq<real>, g: seq<real>, c: real)
    requires |row| == |f| == |g| && forall j :: 0 <= j < |f| ==> Times(f[j], c) == g[j]
    ensures Times(Sum(Products(row, f)), c) == Sum(Products(row, g))
  {
    if row != [] {
      var n := |row| - 1;
      ProductsScale(row[..n], f[..n], g[..n], c);
      assert Products(row, f)[..n] == Products(row[..n], f[..n]);
      assert Products(row, g)[..n] == Products(row[..n], g[..n]);
      TimesAssociates(row[n], f[n], c);
      TimesSpreads(Sum(Products(row[..n], f[..n])), Times(row[n], f[n]), c);
    }
  }

  /** The product of the maxima divided out from `step` to the end. */
  function Factor(w: Lattice, k: nat, step: nat): (c: real)
    requires Chain(w, k) && step < |w|
    ensures c > 0.0
    decreases |w| - step
  {
    if step == |w| - 1 then 1.0
    else
      var next := Message(w, k, step + 1);
      PulledPositive(w[step + 1], next);
      TimesPositive(Largest(Pulled(w[step + 1], next)), Factor(w, k, step + 1));
      Times(Largest(Pulled(w[step + 1], next)), Factor(w, k, step + 1))
  }

  lemma PullStep(rows: seq<seq<real>>, f: seq<real>, c: real, g: seq<real>, i: nat)
    requires f != [] && AllPositive(f) && i < |rows| && |g| == |f|
    requires forall i :: 0 <= i < |rows| ==> |rows[i]| == |f| && AllPositive(rows[i])
    requires forall j :: 0 <= j < |f| ==> Times(f[j], c) == g[j]
    ensures Largest(Pulled(rows, f)) > 0.0
    ensures Times(Pull(rows, f)[i], Times(Largest(Pulled(rows, f)), c)) == Sum(Products(rows[i], g))
  {
    PulledPositive(rows, f);
    ProductsScale(rows[i], f, g, c);
    TimesCancels(Sum(Products(rows[i], f)), Largest(Pulled(rows, f)), c);
  }

  lemma {:induction false} MessageSolves(w: Lattice, k: nat, t: Totals, step: nat)
    requires Chain(w, k) && Solves(t, w, k) && step < |w|
    ensures forall i :: 0 <= i < k ==> Times(Message(w, k, step)[i], Factor(w, k, step)) == t(step + 1, i)
    decreases |w| - step
  {
    if step < |w| - 1 {
      MessageSolves(w, k, t, step + 1);
      forall i | 0 <= i < k ensures Times(Message(w, k, step)[i], Factor(w, k, step)) == t(step + 1, i) {
        assert SolvesAt(t, w, k, step + 1, i);
        PullStep(w[step + 1], Message(w, k, step + 1), Factor(w, k, step + 1), Column(t, step + 2, k), i);
      }
    }
  }

  /** Each message is the sum over all suffix paths of their weights, up to one positive factor per step. */
  lemma MessageIsPathSum(w: Lattice, k: nat, step: nat, from: nat)
    requires Chain(w, k) && step < |w| && from < k
    ensures Times(Message(w, k, step)[from], Factor(w, k, step)) == Total(w, k, step + 1, from)
  {
    PathSumsSolve(w, k);
    MessageSolves(w, k, TotalsOf(w, k), step);
  }

  // ----- proposals along a path telescope -----

  /** Proposal weights at a step with the full message added to the scores. */
  function RowWeights(w: Lattice, k: nat, step: nat, from: nat): (r: seq<real>)
    requires Chain(w, k) && step < |w| && from < k
    ensures |r| == k && AllPositive(r)
  {
    ProductsPositive(w[step][from], Message(w, k, step));
    Products(w[step][from], Message(w, k, step))
  }

  function RowProbs(w: Lattice, k: nat, step: nat, from: nat): (r: seq<real>)
    requires Chain(w, k) && step < |w| && from < k
    ensures |r| == k
  {
    KeptSomething(RowWeights(w, k, step, from), 1.0);
    Compact(RowWeights(w, k, step, from), 1.0)
  }

  /** Proposal rows by step and predecessor. */
  type ProposalRows = (int, int) -> seq<real>

  /** Product of the proposal probabilities of the tokens along a path. */
  function ProbAlong(rows: ProposalRows, step: int, from: int, p: seq<int>): real
    decreases |p|
  {
    if p == [] then 1.0 else Times(At(rows(step, from), p[0]), ProbAlong(rows, step + 1, p[0], p[1..]))
  }

  ghost function FullRows(w: Lattice, k: nat): ProposalRows
    requires Chain(w, k)
  {
    (step, from) => if 0 <= step < |w| && 0 <= from < k then RowProbs(w, k, step, from) else []
  }

  lemma NormalisedShare(row: seq<real>, f: seq<real>, g: seq<real>, c: real, j: nat)
    requires |row| == |f| == |g| && j < |f| && AllPositive(row) && AllPositive(f)
    requires forall i :: 0 <= i < |f| ==> Times(f[i], c) == g[i]
    ensures Sum(Products(row, f)) > 0.0
    ensures Times(Ratio(Products(row, f)[j], Sum(Products(row, f))), Sum(Products(row, g))) == Times(row[j], g[j])
  {
    ProductsPositive(row, f);
    SumPositive(Products(row, f));
    ProductsScale(row, f, g, c);
    TimesCancels(Times(row[j], f[j]), Sum(Products(row, f)), c);
    TimesAssociates(row[j], f[j], c);
  }

  lemma RowProbIsShare(w: Lattice, k: nat, t: Totals, step: nat, from: nat, j: nat)
    requires Chain(w, k) && Solves(t, w, k) && step < |w| && from < k && j < k
    ensures Times(RowProbs(w, k, step, from)[j], t(step, from)) == Times(w[step][from][j], t(step + 1, j))
  {
    var row, message := w[step][from], Message(w, k, step);
    assert t(step, from) == Sum(Products(row, Column(t, step + 1, k))) by {
      assert SolvesAt(t, w, k, step, from);
    }
    assert RowProbs(w, k, step, from)[j] == Ratio(Products(row, message)[j], Sum(Products(row, message))) by {
      CompactAll(RowWeights(w, k, step, from), 1.0, j);
    }
    MessageSolves(w, k, t, step);
    NormalisedShare(row, message, Column(t, step + 1, k), Factor(w, k, step), j);
  }

  lemma RegroupChain(q: real, rest: real, total: real, e: real, next: real, tail: real)
    requires Times(q, total) == Times(e, next) && Times(rest, next) == tail
    ensures Times(Times(q, rest), total) == Times(e, tail)
  {
    assert (q * rest) * total == (q * total) * rest;
    assert (e * next) * rest == e * (rest * next);
  }

  /** A row proposes `j` with the share of its continuations in those of `from`. */
  ghost predicate ShareAt(rows: ProposalRows, w: Lattice, t: Totals, step: int, from: int, j: int) {
    Times(At(rows(step, from), j), t(step, from)) == Times(Edge(w, step, from, j), t(step + 1, j))
  }

  lemma {:induction false} SharesTelescope(rows: ProposalRows, w: Lattice, k: nat, t: Totals, step: nat, from: int,
                                           p: seq<int>)
    requires step + |p| == |w| && 0 <= from < k && IsPath(p, k, |p|)
    requires forall s, i, j :: 0 <= s < |w| && 0 <= i < k && 0 <= j < k ==> ShareAt(rows, w, t, s, i, j)
    requires forall i :: 0 <= i < k ==> t(|w|, i) == 1.0
    ensures Times(ProbAlong(rows, step, from, p), t(step, from)) == PathWeight(w, step, from, p)
    decreases |p|
  {
    if p != [] {
      SharesTelescope(rows, w, k, t, step + 1, p[0], p[1..]);
      assert ShareAt(rows, w, t, step, from, p[0]);
      RegroupChain(At(rows(step, from), p[0]), ProbAlong(rows, step + 1, p[0], p[1..]), t(step, from),
                   Edge(w, step, from, p[0]), t(step + 1, p[0]), PathWeight(w, step + 1, p[0], p[1..]));
    }
  }

  /** Some path always has weight, so shares of the total are defined. */
  lemma {:induction false} TotalPositive(w: Lattice, k: nat, step: nat, from: nat)
    requires Chain(w, k) && step <= |w| && from < k
    ensures Total(w, k, step, from) > 0.0
    decreases |w| - step
  {
    if step == |w| {
      TotalEnds(w, k, from);
    } else {
      var column := Column(TotalsOf(w, k), step + 1, k);
      forall j | 0 <= j < k ensures column[j] > 0.0 {
        TotalPositive(w, k, step + 1, j);
      }
      TotalUnfolds(w, k, step, from);
      ProductsPositive(w[step][from], column);
      SumPositive(Products(w[step][from], column));
    }
  }

  lemma FullRowShare(w: Lattice, k: nat, t: Totals, step: nat, from: nat, j: nat)
    requires Chain(w, k) && Solves(t, w, k) && step < |w| && from < k && j < k
    ensures ShareAt(FullRows(w, k), w, t, step, from, j)
  {
    RowProbIsShare(w, k, t, step, from, j);
    assert FullRows(w, k)(step, from) == RowProbs(w, k, step, from);
  }

  lemma Telescope(w: Lattice, k: nat, p: seq<int>)
    requires Chain(w, k) && IsPath(p, k, |w|)
    ensures Times(ProbAlong(FullRows(w, k), 0, 0, p), Total(w, k, 0, 0)) == PathWeight(w, 0, 0, p)
  {
    var t, rows := TotalsOf(w, k), FullRows(w, k);
    PathSumsSolve(w, k);
    forall s, i, j | 0 <= s < |w| && 0 <= i < k && 0 <= j < k ensures ShareAt(rows, w, t, s, i, j) {
      FullRowShare(w, k, t, s, i, j);
    }
    SharesTelescope(rows, w, k, t, 0, 0, p);
  }

  /** With full messages and no truncation, a path is proposed with its share of the total weight of all paths. */
  lemma ProposalsTelescope(w: Lattice, k: nat, p: seq<int>)
    requires Chain(w, k) && IsPath(p, k, |w|)
    ensures Total(w, k, 0, 0) > 0.0
    ensures ProbAlong(FullRows(w, k), 0, 0, p) == Ratio(PathWeight(w, 0, 0, p), Total(w, k, 0, 0))
  {
    TotalPositive(w, k, 0, 0);
    Telescope(w, k, p);
    FactorOf(ProbAlong(FullRows(w, k), 0, 0, p), Total(w, k, 0, 0));
  }

  lemma {:induction false} OverScales(f: seq<int> -> real, g: seq<int> -> real, c: real, paths: seq<seq<int>>)
    requires forall i :: 0 <= i < |paths| ==> Times(f(paths[i]), c) == g(paths[i])
    ensures Times(Over(f, paths), c) == Over(g, paths)
  {
    if paths != [] {
      var n := |paths| - 1;
      OverScales(f, g, c, paths[..n]);
      TimesSpreads(Over(f, paths[..n]), f(paths[n]), c);
    }
  }

  /** The proposals are a distribution over whole paths. */
  lemma PathsFormDistribution(w: Lattice, k: nat)
    requires Chain(w, k)
    ensures Over(p => ProbAlong(FullRows(w, k), 0, 0, p), Paths(k, |w|)) == 1.0
  {
    var rows, paths, total := FullRows(w, k), Paths(k, |w|), Total(w, k, 0, 0);
    var f, g := p => ProbAlong(rows, 0, 0, p), p => PathWeight(w, 0, 0, p);
    forall i | 0 <= i < |paths| ensures Times(f(paths[i]), total) == g(paths[i]) {
      PathsComplete(k, |w|, paths[i]);
      Telescope(w, k, paths[i]);
    }
    OverScales(f, g, total, paths);
    TotalPositive(w, k, 0, 0);
    FactorOf(Over(f, paths), total);
    SelfRatio(total);
  }
}
