/** Counterfactual proposals on recorded prefixes and the overlap proxies built from them. */
module SelectorAlignment {
  import opened RealSums
  import opened Nucleus
  import opened SelectorChain
  import opened Options

  // ----- overlap and support -----

  /** Proposal mass on one token, over all its occurrences. */
  function MassOn(ids: seq<int>, probs: seq<real>, id: int): real
    requires |ids| == |probs|
  {
    if ids == [] then 0.0
    else
      var n := |ids| - 1;
      MassOn(ids[..n], probs[..n], id) + (if ids[n] == id then probs[n] else 0.0)
  }

  function Smaller(x: real, y: real): real { if x < y then x else y }

  function Overlap(targetIds: seq<int>, target: seq<real>, ids: seq<int>, probs: seq<real>): real
    requires |targetIds| == |target| && |ids| == |probs|
  {
    if target == [] then 0.0
    else
      var n := |target| - 1;
      Overlap(targetIds[..n], target[..n], ids, probs) + Smaller(target[n], MassOn(ids, probs, targetIds[n]))
  }

  function SupportMass(targetIds: seq<int>, target: seq<real>, ids: seq<int>): real
    requires |targetIds| == |target|
  {
    if target == [] then 0.0
    else
      var n := |target| - 1;
      SupportMass(targetIds[..n], target[..n], ids) + (if targetIds[n] in ids then target[n] else 0.0)
  }

  lemma {:induction false} MassOnBounds(ids: seq<int>, probs: seq<real>, id: int)
    requires |ids| == |probs| && AllNonNegative(probs)
    ensures 0.0 <= MassOn(ids, probs, id) <= Sum(probs)
    ensures id !in ids ==> MassOn(ids, probs, id) == 0.0
  {
    if ids != [] {
      MassOnBounds(ids[..|ids| - 1], probs[..|ids| - 1], id);
      assert ids == ids[..|ids| - 1] + [ids[|ids| - 1]];
    }
  }

  /** Overlap lies between zero and the target mass on supported tokens, which is at most the whole target mass. */
  lemma {:induction false} OverlapWithinSupport(targetIds: seq<int>, target: seq<real>, ids: seq<int>, probs: seq<real>)
    requires |targetIds| == |target| && |ids| == |probs| && AllNonNegative(target) && AllNonNegative(probs)
    ensures 0.0 <= Overlap(targetIds, target, ids, probs) <= SupportMass(targetIds, target, ids) <= Sum(target)
  {
    if target != [] {
      var n := |target| - 1;
      OverlapWithinSupport(targetIds[..n], target[..n], ids, probs);
      MassOnBounds(ids, probs, targetIds[n]);
    }
  }

  // ----- completion-length proxy -----

  function Product(xs: seq<real>): real {
    if xs == [] then 1.0 else Times(Product(xs[..|xs| - 1]), xs[|xs| - 1])
  }

  /** One, plus the probability of surviving each position: the expected length of a run of successes. */
  function Proxy(xs: seq<real>): real {
    if xs == [] then 1.0 else Proxy(xs[..|xs| - 1]) + Product(xs)
  }

  method CompletionProxy(overlaps: seq<real>) returns (result: real)
    ensures result == Proxy(overlaps)
  {
    var survival := 1.0;
    result := 1.0;
    for i := 0 to |overlaps|
      invariant survival == Product(overlaps[..i]) && result == Proxy(overlaps[..i])
    {
      assert overlaps[..i + 1][..i] == overlaps[..i];
      survival := Times(survival, overlaps[i]);
      result := result + survival;
    }
    assert overlaps[..|overlaps|] == overlaps;
  }

  ghost predicate Below(xs: seq<real>, ys: seq<real>) {
    |xs| == |ys| && forall i :: 0 <= i < |xs| ==> 0.0 <= xs[i] <= ys[i]
  }

  lemma TimesMonotone(x: real, y: real, x': real, y': real)
    requires 0.0 <= x <= x' && 0.0 <= y <= y'
    ensures 0.0 <= Times(x, y) <= Times(x', y')
  {
    assert x * y <= x' * y <= x' * y';
  }

  lemma {:induction false} ProductMonotone(xs: seq<real>, ys: seq<real>)
    requires Below(xs, ys)
    ensures 0.0 <= Product(xs) <= Product(ys)
  {
    if xs != [] {
      var n := |xs| - 1;
      ProductMonotone(xs[..n], ys[..n]);
      TimesMonotone(Product(xs[..n]), xs[n], Product(ys[..n]), ys[n]);
    }
  }

  /** The proxy is monotone in every position. */
  lemma {:induction false} ProxyMonotone(xs: seq<real>, ys: seq<real>)
    requires Below(xs, ys)
    ensures Proxy(xs) <= Proxy(ys)
  {
    if xs != [] {
      var n := |xs| - 1;
      ProxyMonotone(xs[..n], ys[..n]);
      ProductMonotone(xs, ys);
    }
  }

  // ----- records and configurations -----

  /** Exponential and real power, known only by the laws used. */
  datatype Numerics = Numerics(exp: real -> real, power: (real, real) -> real)

  ghost predicate Sound(num: Numerics) {
    && (forall x :: num.exp(x) > 0.0)
    && (forall x, b :: x > 0.0 ==> num.power(x, b) > 0.0)
    && (forall x :: num.power(x, 1.0) == x)
    && (forall x :: num.power(x, 0.0) == 1.0)
  }

  datatype Config = Config(temperatureScale: real, topP: real, unaryScale: real, edgeScale: real,
                           futureBeta: real, greedyMix: real, useCached: bool)

  datatype Record = Record(temperature: real, topP: real, targetIds: seq<seq<int>>, targetLogits: seq<seq<real>>,
                           candidateIds: seq<seq<int>>, realized: seq<seq<real>>, unary: seq<seq<real>>,
                           lattice: Lattice, draftSampled: seq<int>)

  predicate Rows<T>(rows: seq<seq<T>>, n: nat, k: nat) {
    |rows| == n && forall s :: 0 <= s < n ==> |rows[s]| == k
  }

  /**
   * The tensor shapes of a record with `n` steps, `k` candidates and `m` target entries per step. There may be
   * more target rows than steps, as a dump has one per drafted row; the rows past the steps are not read.
   */
  predicate Shaped(r: Record, n: nat, k: nat, m: nat) {
    && 0 < n && 0 < k && 0 < m && r.temperature > 0.0 && r.topP > 0.0
    && n <= |r.targetIds| && Rows(r.targetIds, |r.targetIds|, m)
    && n <= |r.targetLogits| && Rows(r.targetLogits, |r.targetLogits|, m)
    && Rows(r.candidateIds, n, k) && Rows(r.realized, n, k) && Rows(r.unary, n, k)
    && Rows(r.lattice, n, k) && forall s :: 0 <= s < n ==> Rows(r.lattice[s], k, k)
  }

  predicate Usable(c: Config) {
    c.temperatureScale > 0.0 && c.topP > 0.0
  }

  function Exps(num: Numerics, logits: seq<real>): (r: seq<real>)
    ensures |r| == |logits|
    ensures forall j :: 0 <= j < |r| ==> r[j] == num.exp(logits[j])
  {
    seq(|logits|, j requires 0 <= j < |logits| => num.exp(logits[j]))
  }

  function Divided(logits: seq<real>, d: real): (r: seq<real>)
    requires d != 0.0
    ensures |r| == |logits| && forall j :: 0 <= j < |r| ==> r[j] == Ratio(logits[j], d)
  {
    seq(|logits|, j requires 0 <= j < |logits| => Ratio(logits[j], d))
  }

  lemma ExpPositive(num: Numerics, x: real)
    requires Sound(num)
    ensures num.exp(x) > 0.0
  {
  }

  lemma ExpsPositive(num: Numerics, logits: seq<real>)
    requires Sound(num)
    ensures AllPositive(Exps(num, logits))
  {
    forall j | 0 <= j < |logits| ensures Exps(num, logits)[j] > 0.0 {
      ExpPositive(num, logits[j]);
    }
  }

  lemma CompactDefined(num: Numerics, logits: seq<real>, topP: real)
    requires Sound(num) && logits != [] && topP > 0.0
    ensures AllPositive(Exps(num, logits)) && KeptMass(Exps(num, logits), topP) > 0.0
    ensures AllNonNegative(Compact(Exps(num, logits), topP)) && Sum(Compact(Exps(num, logits), topP)) == 1.0
  {
    ExpsPositive(num, logits);
    CompactIsDistribution(Exps(num, logits), topP);
  }

  function TargetRow(num: Numerics, r: Record, n: nat, k: nat, m: nat, step: nat): (probs: seq<real>)
    requires Sound(num) && Shaped(r, n, k, m) && step < n
    ensures |probs| == m && AllNonNegative(probs) && Sum(probs) == 1.0
  {
    var logits := Divided(r.targetLogits[step], r.temperature);
    CompactDefined(num, logits, r.topP);
    Compact(Exps(num, logits), r.topP)
  }

  // ----- the transformed lattice -----

  function Score(r: Record, c: Config, unary: real, lattice: real): real
    requires r.temperature > 0.0 && c.temperatureScale > 0.0
  {
    TimesPositive(r.temperature, c.temperatureScale);
    Ratio(Times(c.unaryScale, unary) + Times(c.edgeScale, lattice - unary), Times(r.temperature, c.temperatureScale))
  }

  function ScoreRow(r: Record, c: Config, unary: seq<real>, lattice: seq<real>): (row: seq<real>)
    requires |unary| == |lattice| && r.temperature > 0.0 && c.temperatureScale > 0.0
    ensures |row| == |lattice| && forall j :: 0 <= j < |row| ==> row[j] == Score(r, c, unary[j], lattice[j])
  {
    seq(|lattice|, j requires 0 <= j < |lattice| => Score(r, c, unary[j], lattice[j]))
  }

  function WeightRow(num: Numerics, r: Record, c: Config, unary: seq<real>, lattice: seq<real>): (row: seq<real>)
    requires Sound(num) && |unary| == |lattice| && r.temperature > 0.0 && c.temperatureScale > 0.0
    ensures |row| == |lattice| && AllPositive(row)
  {
    ExpsPositive(num, ScoreRow(r, c, unary, lattice));
    Exps(num, ScoreRow(r, c, unary, lattice))
  }

  function WeightStep(num: Numerics, r: Record, c: Config, unary: seq<real>, rows: seq<seq<real>>,
                      k: nat): (w: seq<seq<real>>)
    requires Sound(num) && r.temperature > 0.0 && c.temperatureScale > 0.0
    requires |unary| == k && Rows(rows, k, k)
    ensures |w| == k && forall i :: 0 <= i < k ==> w[i] == WeightRow(num, r, c, unary, rows[i])
  {
    seq(k, i requires 0 <= i < k => WeightRow(num, r, c, unary, rows[i]))
  }

  function LatticeWeights(num: Numerics, r: Record, c: Config, n: nat, k: nat, m: nat): (w: Lattice)
    requires Sound(num) && Shaped(r, n, k, m) && Usable(c)
    ensures |w| == n && Chain(w, k)
  {
    var w := seq(n, s requires 0 <= s < n => WeightStep(num, r, c, r.unary[s], r.lattice[s], k));
    w
  }

  // ----- the recorded path -----

  /** `id` stands at position `i` and nowhere else. */
  predicate OnlyAt(ids: seq<int>, id: int, i: nat) {
    i < |ids| && ids[i] == id && forall j :: 0 <= j < |ids| && ids[j] == id ==> j == i
  }

  ghost predicate Once(ids: seq<int>, id: int) {
    exists i: nat :: OnlyAt(ids, id, i)
  }

  /** The positions of a token, in order. */
  function Matches(ids: seq<int>, id: int): seq<nat> {
    if ids == [] then []
    else Matches(ids[..|ids| - 1], id) + (if ids[|ids| - 1] == id then [|ids| - 1] else [])
  }

  lemma {:induction false} MatchesMeaning(ids: seq<int>, id: int)
    ensures forall i: nat :: i in Matches(ids, id) <==> i < |ids| && ids[i] == id
    ensures forall a, b :: 0 <= a < b < |Matches(ids, id)| ==> Matches(ids, id)[a] < Matches(ids, id)[b]
  {
    if ids != [] {
      var n := |ids| - 1;
      var before := Matches(ids[..n], id);
      MatchesMeaning(ids[..n], id);
      forall a | 0 <= a < |before| ensures before[a] < n {
        assert before[a] in before;
      }
      forall i: nat ensures i in Matches(ids, id) <==> i < |ids| && ids[i] == id {
        assert i in Matches(ids, id) <==> i in before || (ids[n] == id && i == n);
      }
    }
  }

  /** The position of a token that occurs exactly once. */
  function UniqueAt(ids: seq<int>, id: int): (r: Option<nat>)
    ensures r.Some? <==> Once(ids, id)
    ensures r.Some? ==> OnlyAt(ids, id, r.value)
  {
    var matches := Matches(ids, id);
    MatchedOnce(ids, id);
    if |matches| != 1 then None else Some(matches[0])
  }

  lemma MatchedOnce(ids: seq<int>, id: int)
    ensures |Matches(ids, id)| == 1 <==> Once(ids, id)
    ensures |Matches(ids, id)| == 1 ==> OnlyAt(ids, id, Matches(ids, id)[0])
  {
    var matches := Matches(ids, id);
    MatchesMeaning(ids, id);
    assert |matches| > 1 ==> matches[0] < matches[1];
    if |matches| == 1 {
      assert matches[0] in matches;
      forall j | 0 <= j < |ids| && ids[j] == id ensures j == matches[0] {
        assert j in matches;
      }
      assert OnlyAt(ids, id, matches[0]);
    }
    if Once(ids, id) {
      var i: nat :| OnlyAt(ids, id, i);
      assert i in matches;
      forall a | 0 <= a < |matches| ensures matches[a] == i {
        assert matches[a] in matches;
      }
    }
  }

  /** Every token drafted after the first step and before step `n` occurs exactly once among its candidates. */
  ghost predicate DraftedOnce(candidates: seq<seq<int>>, draft: seq<int>, n: nat)
    requires n <= |candidates| && n <= |draft|
  {
    forall s :: 0 < s < n ==> Once(candidates[s - 1], draft[s])
  }

  /** Predecessors of the first `n` steps along the recorded draft; `None` when a drafted token is not unique. */
  function Predecessors(candidates: seq<seq<int>>, draft: seq<int>, k: nat, n: nat): (r: Option<seq<nat>>)
    requires 0 < n <= |candidates| && n <= |draft| && 0 < k &&
             forall s :: 0 <= s < |candidates| ==> |candidates[s]| == k
    ensures r.Some? <==> DraftedOnce(candidates, draft, n)
    ensures r.Some? ==> |r.value| == n && r.value[0] == 0 && forall s :: 0 <= s < n ==> r.value[s] < k
    ensures r.Some? ==> forall s :: 0 < s < n ==> OnlyAt(candidates[s - 1], draft[s], r.value[s])
  {
    if n == 1 then Some([0])
    else
      match Predecessors(candidates, draft, k, n - 1)
      case None => None
      case Some(before) =>
        match UniqueAt(candidates[n - 2], draft[n - 1])
        case None => None
        case Some(i) => Some(before + [i])
  }

  function RecordPath(r: Record, n: nat, k: nat, m: nat): (path: Option<seq<nat>>)
    requires Shaped(r, n, k, m)
    ensures path.Some? ==> |path.value| == n && path.value[0] == 0 && forall s :: 0 <= s < n ==> path.value[s] < k
    ensures path.Some? <==> |r.draftSampled| > n && DraftedOnce(r.candidateIds, r.draftSampled, n)
    ensures path.Some? ==> forall s :: 0 < s < n ==> OnlyAt(r.candidateIds[s - 1], r.draftSampled[s], path.value[s])
  {
    if |r.draftSampled| < n + 1 then None else Predecessors(r.candidateIds, r.draftSampled, k, n)
  }

  // ----- proposals -----

  function Tilted(num: Numerics, f: seq<real>, beta: real): (r: seq<real>)
    requires Sound(num) && AllPositive(f)
    ensures |r| == |f| && AllPositive(r) && forall j :: 0 <= j < |r| ==> r[j] == num.power(f[j], beta)
  {
    seq(|f|, j requires 0 <= j < |f| => num.power(f[j], beta))
  }

  /** A distribution over `k` candidates. */
  predicate Distribution(probs: seq<real>, k: nat) {
    |probs| == k && AllNonNegative(probs) && Sum(probs) == 1.0
  }

  predicate Distributions(rows: seq<seq<real>>, k: nat) {
    forall s :: 0 <= s < |rows| ==> Distribution(rows[s], k)
  }

  lemma DistributionsSnoc(rows: seq<seq<real>>, row: seq<real>, k: nat)
    requires Distributions(rows, k) && Distribution(row, k)
    ensures Distributions(rows + [row], k)
  {
  }

  function ChainRow(num: Numerics, w: Lattice, k: nat, c: Config, step: nat, from: nat): (row: seq<real>)
    requires Sound(num) && Chain(w, k) && Usable(c) && step < |w| && from < k
    ensures Distribution(row, k)
  {
    var tilted := Tilted(num, Message(w, k, step), c.futureBeta);
    ProductsPositive(w[step][from], tilted);
    CompactIsDistribution(Products(w[step][from], tilted), c.topP);
    Compact(Products(w[step][from], tilted), c.topP)
  }

  function CachedRow(num: Numerics, logits: seq<real>, c: Config): (row: seq<real>)
    requires Sound(num) && Usable(c) && logits != []
    ensures Distribution(row, |logits|)
  {
    CompactDefined(num, logits, c.topP);
    Compact(Exps(num, logits), c.topP)
  }

  function ChainRows(num: Numerics, w: Lattice, k: nat, c: Config, path: seq<nat>, n: nat): (rows: seq<seq<real>>)
    requires Sound(num) && Chain(w, k) && Usable(c) && n <= |w| && n <= |path|
    requires forall s :: 0 <= s < |path| ==> path[s] < k
    ensures |rows| == n && Distributions(rows, k)
    ensures forall s :: 0 <= s < n ==> rows[s] == ChainRow(num, w, k, c, s, path[s])
  {
    seq(n, s requires 0 <= s < n => ChainRow(num, w, k, c, s, path[s]))
  }

  function CachedRows(num: Numerics, logits: seq<seq<real>>, c: Config, k: nat, n: nat): (rows: seq<seq<real>>)
    requires Sound(num) && Usable(c) && 0 < k && n <= |logits| && Rows(logits, |logits|, k)
    ensures |rows| == n && Distributions(rows, k)
    ensures forall s :: 0 <= s < n ==> rows[s] == CachedRow(num, logits[s], c)
  {
    seq(n, s requires 0 <= s < n => CachedRow(num, logits[s], c))
  }

  /** The first position of the largest entry. */
  function ArgMax(row: seq<real>): (i: nat)
    requires row != []
    ensures i < |row| && forall j :: 0 <= j < |row| ==> row[j] <= row[i]
  {
    var n := |row| - 1;
    if n == 0 then 0 else var i := ArgMax(row[..n]); if row[i] < row[n] then n else i
  }

  /** Moves the share `mix` of the mass onto the largest entry. */
  function Mixed(row: seq<real>, mix: real): (r: seq<real>)
    requires row != []
    ensures |r| == |row|
  {
    var best := ArgMax(row);
    seq(|row|, j requires 0 <= j < |row| => Times(1.0 - mix, row[j]) + (if j == best then mix else 0.0))
  }

  function Spike(n: nat, at: nat, x: real): (r: seq<real>)
    requires at < n
    ensures |r| == n && forall j :: 0 <= j < n ==> r[j] == if j == at then x else 0.0
  {
    seq(n, j => if j == at then x else 0.0)
  }

  lemma SpikeSum(n: nat, at: nat, x: real)
    requires at < n
    ensures Sum(Spike(n, at, x)) == x
  {
    var s := Spike(n, at, x);
    assert s == s[..at] + [x] + s[at + 1..];
    SumAppend(s[..at] + [x], s[at + 1..]);
    SumSnoc(s[..at], x);
    SumZero(s[..at]);
    SumZero(s[at + 1..]);
  }

  function Shrunk(row: seq<real>, c: real): (r: seq<real>)
    ensures |r| == |row| && forall j :: 0 <= j < |r| ==> r[j] == Times(c, row[j])
  {
    seq(|row|, j requires 0 <= j < |row| => Times(c, row[j]))
  }

  lemma {:induction false} ShrunkSum(row: seq<real>, c: real)
    ensures Sum(Shrunk(row, c)) == Times(c, Sum(row))
  {
    if row != [] {
      var n := |row| - 1;
      ShrunkSum(row[..n], c);
      assert Shrunk(row, c)[..n] == Shrunk(row[..n], c);
      TimesSpreads(Sum(row[..n]), row[n], c);
    }
  }

  lemma TimesNonNegative(x: real, y: real)
    requires 0.0 <= x && 0.0 <= y
    ensures 0.0 <= Times(x, y)
  {
  }

  /** Mixing keeps a distribution a distribution. */
  lemma MixedIsDistribution(row: seq<real>, mix: real, k: nat)
    requires Distribution(row, k) && 0 < k && 0.0 <= mix <= 1.0
    ensures Distribution(Mixed(row, mix), k)
  {
    var best, keep := ArgMax(row), 1.0 - mix;
    var shrunk, spike := Shrunk(row, keep), Spike(k, best, mix);
    ShrunkSum(row, keep);
    SpikeSum(k, best, mix);
    SumAdds(shrunk, spike, Mixed(row, mix));
    forall j | 0 <= j < k ensures Mixed(row, mix)[j] >= 0.0 {
      TimesNonNegative(1.0 - mix, row[j]);
    }
  }

  function MixedRows(rows: seq<seq<real>>, mix: real, k: nat): (r: seq<seq<real>>)
    requires 0 < k && 0.0 <= mix <= 1.0 && Distributions(rows, k)
    ensures |r| == |rows| && Distributions(r, k)
    ensures forall s :: 0 <= s < |r| ==> |rows[s]| == k && r[s] == Mixed(rows[s], mix)
  {
    if rows == [] then []
    else
      var n := |rows| - 1;
      MixedIsDistribution(rows[n], mix, k);
      DistributionsSnoc(MixedRows(rows[..n], mix, k), Mixed(rows[n], mix), k);
      MixedRows(rows[..n], mix, k) + [Mixed(rows[n], mix)]
  }

  /** Either the proposals need no recorded path or the record has one. */
  ghost predicate PathGiven(r: Record, c: Config, n: nat) {
    c.useCached || (n <= |r.candidateIds| && n < |r.draftSampled| && DraftedOnce(r.candidateIds, r.draftSampled, n))
  }

  /** The proposals before mixing. */
  function PlainRows(num: Numerics, r: Record, c: Config, n: nat, k: nat, m: nat): (rows: Option<seq<seq<real>>>)
    requires Sound(num) && Shaped(r, n, k, m) && Usable(c)
    ensures rows.Some? <==> PathGiven(r, c, n)
    ensures rows.Some? ==> |rows.value| == n && Distributions(rows.value, k)
  {
    if c.useCached then Some(CachedRows(num, r.realized, c, k, n))
    else
      match RecordPath(r, n, k, m)
      case None => None
      case Some(path) => Some(ChainRows(num, LatticeWeights(num, r, c, n, k, m), k, c, path, n))
  }

  /** One proposal per step; `None` is a missing or ambiguous path or a mixing share outside [0, 1]. */
  function Proposals(num: Numerics, r: Record, c: Config, n: nat, k: nat, m: nat): (rows: Option<seq<seq<real>>>)
    requires Sound(num) && Shaped(r, n, k, m) && Usable(c)
    ensures rows.Some? <==> PathGiven(r, c, n) && 0.0 <= c.greedyMix <= 1.0
    ensures rows.Some? ==> |rows.value| == n && Distributions(rows.value, k)
  {
    var plain := PlainRows(num, r, c, n, k, m);
    if plain.None? || c.greedyMix == 0.0 then plain
    else if !(0.0 <= c.greedyMix <= 1.0) then None
    else Some(MixedRows(plain.value, c.greedyMix, k))
  }

  // ----- means over records -----

  predicate AllShaped(records: seq<Record>, n: nat, k: nat, m: nat) {
    forall r :: r in records ==> Shaped(r, n, k, m)
  }

  function OverlapAt(num: Numerics, r: Record, rows: seq<seq<real>>, n: nat, k: nat, m: nat, step: nat): real
    requires Sound(num) && Shaped(r, n, k, m) && step < n && |rows| == n && |rows[step]| == k
  {
    Overlap(r.targetIds[step], TargetRow(num, r, n, k, m, step), r.candidateIds[step], rows[step])
  }

  function SupportAt(num: Numerics, r: Record, n: nat, k: nat, m: nat, step: nat): real
    requires Sound(num) && Shaped(r, n, k, m) && step < n
  {
    SupportMass(r.targetIds[step], TargetRow(num, r, n, k, m, step), r.candidateIds[step])
  }

  /** One list of proposal rows per record. */
  predicate RowsFor(records: seq<Record>, proposals: seq<seq<seq<real>>>, n: nat, k: nat) {
    |proposals| == |records| && forall i :: 0 <= i < |records| ==> |proposals[i]| == n && Distributions(proposals[i], k)
  }

  lemma RowsForNext(records: seq<Record>, before: seq<seq<seq<real>>>, rows: seq<seq<real>>, n: nat, k: nat)
    requires records != [] && RowsFor(records[..|records| - 1], before, n, k) && |rows| == n && Distributions(rows, k)
    ensures RowsFor(records, before + [rows], n, k)
  {
  }

  function AllProposals(num: Numerics, records: seq<Record>, c: Config, n: nat, k: nat,
                        m: nat): (r: Option<seq<seq<seq<real>>>>)
    requires Sound(num) && Usable(c) && AllShaped(records, n, k, m)
    ensures r.Some? ==> RowsFor(records, r.value, n, k)
  {
    if records == [] then Some([])
    else
      var last := |records| - 1;
      assert records[last] in records;
      var before, rows := AllProposals(num, records[..last], c, n, k, m), Proposals(num, records[last], c, n, k, m);
      if before.None? || rows.None? then None
      else
        RowsForNext(records, before.value, rows.value, n, k);
        Some(before.value + [rows.value])
  }

  function OverlapColumn(num: Numerics, records: seq<Record>, proposals: seq<seq<seq<real>>>,
                         n: nat, k: nat, m: nat, step: nat): (r: seq<real>)
    requires Sound(num) && AllShaped(records, n, k, m) && RowsFor(records, proposals, n, k) && step < n
    ensures |r| == |records|
    ensures forall i :: 0 <= i < |r| ==> r[i] == OverlapAt(num, records[i], proposals[i], n, k, m, step)
  {
    seq(|records|, i requires 0 <= i < |records| => OverlapAt(num, records[i], proposals[i], n, k, m, step))
  }

  function SupportColumn(num: Numerics, records: seq<Record>, n: nat, k: nat, m: nat, step: nat): (r: seq<real>)
    requires Sound(num) && AllShaped(records, n, k, m) && step < n
    ensures |r| == |records|
    ensures forall i :: 0 <= i < |r| ==> r[i] == SupportAt(num, records[i], n, k, m, step)
  {
    seq(|records|, i requires 0 <= i < |records| => SupportAt(num, records[i], n, k, m, step))
  }

  function Mean(xs: seq<real>): real
    requires xs != []
  {
    Ratio(Sum(xs), |xs| as real)
  }

  function MeanOverlaps(num: Numerics, records: seq<Record>, proposals: seq<seq<seq<real>>>, n: nat, k: nat,
                        m: nat): (r: seq<real>)
    requires Sound(num) && records != [] && AllShaped(records, n, k, m) && RowsFor(records, proposals, n, k)
    ensures |r| == n
    ensures forall s :: 0 <= s < n ==> r[s] == Mean(OverlapColumn(num, records, proposals, n, k, m, s))
  {
    seq(n, s requires 0 <= s < n => Mean(OverlapColumn(num, records, proposals, n, k, m, s)))
  }

  function MeanSupports(num: Numerics, records: seq<Record>, n: nat, k: nat, m: nat): (r: seq<real>)
    requires Sound(num) && records != [] && AllShaped(records, n, k, m)
    ensures |r| == n
    ensures forall s :: 0 <= s < n ==> r[s] == Mean(SupportColumn(num, records, n, k, m, s))
  {
    seq(n, s requires 0 <= s < n => Mean(SupportColumn(num, records, n, k, m, s)))
  }

  lemma OverlapAtBounds(num: Numerics, r: Record, rows: seq<seq<real>>, n: nat, k: nat, m: nat, step: nat)
    requires Sound(num) && Shaped(r, n, k, m) && step < n && |rows| == n && Distributions(rows, k)
    ensures 0.0 <= OverlapAt(num, r, rows, n, k, m, step) <= SupportAt(num, r, n, k, m, step)
  {
    OverlapWithinSupport(r.targetIds[step], TargetRow(num, r, n, k, m, step), r.candidateIds[step], rows[step]);
  }

  lemma ColumnBelow(num: Numerics, records: seq<Record>, proposals: seq<seq<seq<real>>>, n: nat, k: nat, m: nat,
                    step: nat)
    requires Sound(num) && AllShaped(records, n, k, m) && RowsFor(records, proposals, n, k) && step < n
    ensures Below(OverlapColumn(num, records, proposals, n, k, m, step), SupportColumn(num, records, n, k, m, step))
  {
    forall i | 0 <= i < |records|
      ensures 0.0 <= OverlapAt(num, records[i], proposals[i], n, k, m, step)
           <= SupportAt(num, records[i], n, k, m, step)
    {
      OverlapAtBounds(num, records[i], proposals[i], n, k, m, step);
    }
  }

  lemma MeanMonotone(xs: seq<real>, ys: seq<real>)
    requires xs != [] && Below(xs, ys)
    ensures 0.0 <= Mean(xs) <= Mean(ys)
  {
    SumNonNegative(xs);
    SumMonotone(xs, ys);
    DivideMonotone(Sum(xs), Sum(ys), |xs| as real);
  }

  lemma DivideMonotone(x: real, y: real, d: real)
    requires 0.0 <= x <= y && d > 0.0
    ensures 0.0 <= Ratio(x, d) <= Ratio(y, d)
  {
    assert x / d == (1.0 / d) * x && y / d == (1.0 / d) * y;
  }

  lemma MeansBelow(num: Numerics, records: seq<Record>, proposals: seq<seq<seq<real>>>, n: nat, k: nat, m: nat)
    requires Sound(num) && records != [] && AllShaped(records, n, k, m) && RowsFor(records, proposals, n, k)
    ensures Below(MeanOverlaps(num, records, proposals, n, k, m), MeanSupports(num, records, n, k, m))
  {
    forall s | 0 <= s < n
      ensures 0.0 <= MeanOverlaps(num, records, proposals, n, k, m)[s] <= MeanSupports(num, records, n, k, m)[s]
    {
      ColumnBelow(num, records, proposals, n, k, m, s);
      MeanMonotone(OverlapColumn(num, records, proposals, n, k, m, s), SupportColumn(num, records, n, k, m, s));
    }
  }

  /** Mean overlaps of a configuration by position; `None` when some record has no proposal. */
  function Evaluate(num: Numerics, records: seq<Record>, c: Config, n: nat, k: nat, m: nat): (r: Option<seq<real>>)
    requires Sound(num) && Usable(c) && records != [] && AllShaped(records, n, k, m)
    ensures r.Some? ==> |r.value| == n
  {
    match AllProposals(num, records, c, n, k, m)
    case None => None
    case Some(proposals) => Some(MeanOverlaps(num, records, proposals, n, k, m))
  }

  lemma {:induction false} AllProposalsDefined(num: Numerics, records: seq<Record>, c: Config, n: nat, k: nat, m: nat)
    requires Sound(num) && Usable(c) && AllShaped(records, n, k, m)
    ensures AllProposals(num, records, c, n, k, m).Some? <==>
            records == [] || (0.0 <= c.greedyMix <= 1.0 && PathsGiven(records, c, n))
  {
    if records != [] {
      var last := |records| - 1;
      AllProposalsDefined(num, records[..last], c, n, k, m);
      PathsGivenNext(records, c, n);
      assert records[last] in records;
    }
  }

  ghost predicate PathsGiven(records: seq<Record>, c: Config, n: nat) {
    forall r :: r in records ==> PathGiven(r, c, n)
  }

  lemma PathsGivenNext(records: seq<Record>, c: Config, n: nat)
    requires records != []
    ensures var last := |records| - 1;
            PathsGiven(records, c, n) <==> PathsGiven(records[..last], c, n) && PathGiven(records[last], c, n)
  {
    var last := |records| - 1;
    assert records == records[..last] + [records[last]];
  }

  lemma {:induction false} AllProposalsAt(num: Numerics, records: seq<Record>, c: Config, n: nat, k: nat, m: nat,
                                          i: nat)
    requires Sound(num) && Usable(c) && AllShaped(records, n, k, m) && i < |records| && Shaped(records[i], n, k, m)
    requires AllProposals(num, records, c, n, k, m).Some?
    ensures Proposals(num, records[i], c, n, k, m) == Some(AllProposals(num, records, c, n, k, m).value[i])
  {
    if i < |records| - 1 {
      AllProposalsAt(num, records[..|records| - 1], c, n, k, m, i);
    }
  }

  /**
   * A configuration is evaluated exactly when its mixing share lies in [0, 1] and it uses the cached logits or
   * every record has a path; position by position the result is the mean over the records of the overlap of
   * target and proposal.
   */
  lemma EvaluateMeaning(num: Numerics, records: seq<Record>, c: Config, n: nat, k: nat, m: nat)
    requires Sound(num) && Usable(c) && records != [] && AllShaped(records, n, k, m)
    ensures Evaluate(num, records, c, n, k, m).Some? <==>
            0.0 <= c.greedyMix <= 1.0 && PathsGiven(records, c, n)
    ensures Evaluate(num, records, c, n, k, m).Some? ==> forall s :: 0 <= s < n ==>
              Evaluate(num, records, c, n, k, m).value[s] == Mean(OverlapsAt(num, records, c, n, k, m, s))
  {
    AllProposalsDefined(num, records, c, n, k, m);
    if Evaluate(num, records, c, n, k, m).Some? {
      forall s | 0 <= s < n
        ensures OverlapsAt(num, records, c, n, k, m, s)
             == OverlapColumn(num, records, AllProposals(num, records, c, n, k, m).value, n, k, m, s)
      {
        ColumnOfProposals(num, records, c, n, k, m, s);
      }
    }
  }

  /** Overlap of each record's target and proposal at a step, zero for a record without proposal. */
  function OverlapsAt(num: Numerics, records: seq<Record>, c: Config, n: nat, k: nat, m: nat, step: nat): (r: seq<real>)
    requires Sound(num) && Usable(c) && AllShaped(records, n, k, m) && step < n
    ensures |r| == |records|
  {
    seq(|records|, i requires 0 <= i < |records| =>
          assert records[i] in records;
          match Proposals(num, records[i], c, n, k, m)
          case None => 0.0
          case Some(rows) =>
            Overlap(records[i].targetIds[step], TargetRow(num, records[i], n, k, m, step),
                    records[i].candidateIds[step], rows[step]))
  }

  lemma ColumnOfProposals(num: Numerics, records: seq<Record>, c: Config, n: nat, k: nat, m: nat, step: nat)
    requires Sound(num) && Usable(c) && AllShaped(records, n, k, m) && step < n
    requires AllProposals(num, records, c, n, k, m).Some?
    ensures OverlapsAt(num, records, c, n, k, m, step)
         == OverlapColumn(num, records, AllProposals(num, records, c, n, k, m).value, n, k, m, step)
  {
    AllProposalsDefined(num, records, c, n, k, m);
    var proposals := AllProposals(num, records, c, n, k, m).value;
    forall i | 0 <= i < |records|
      ensures OverlapsAt(num, records, c, n, k, m, step)[i] == OverlapColumn(num, records, proposals, n, k, m, step)[i]
    {
      ColumnEntry(num, records, c, n, k, m, step, i);
    }
  }

  lemma ColumnEntry(num: Numerics, records: seq<Record>, c: Config, n: nat, k: nat, m: nat, step: nat, i: nat)
    requires Sound(num) && Usable(c) && AllShaped(records, n, k, m) && step < n && i < |records|
    requires AllProposals(num, records, c, n, k, m).Some?
    ensures OverlapsAt(num, records, c, n, k, m, step)[i]
         == OverlapColumn(num, records, AllProposals(num, records, c, n, k, m).value, n, k, m, step)[i]
  {
    assert records[i] in records;
    AllProposalsAt(num, records, c, n, k, m, i);
  }

  /**
   * No configuration's completion proxy exceeds the candidate-support proxy of the same records, and no mean
   * overlap is negative.
   */
  lemma ProxyBelowSupport(num: Numerics, records: seq<Record>, c: Config, n: nat, k: nat, m: nat)
    requires Sound(num) && Usable(c) && records != [] && AllShaped(records, n, k, m)
    requires Evaluate(num, records, c, n, k, m).Some?
    ensures AllNonNegative(Evaluate(num, records, c, n, k, m).value)
    ensures Proxy(Evaluate(num, records, c, n, k, m).value) <= Proxy(MeanSupports(num, records, n, k, m))
  {
    var proposals := AllProposals(num, records, c, n, k, m).value;
    MeansBelow(num, records, proposals, n, k, m);
    ProxyMonotone(MeanOverlaps(num, records, proposals, n, k, m), MeanSupports(num, records, n, k, m));
  }

  // ----- configurations with a known meaning -----

  /** Full messages, no truncation: the rows of the telescoping chain. */
  lemma FullMessageRow(num: Numerics, w: Lattice, k: nat, c: Config, step: nat, from: nat)
    requires Sound(num) && Chain(w, k) && Usable(c) && step < |w| && from < k
    requires c.futureBeta == 1.0 && c.topP == 1.0
    ensures ChainRow(num, w, k, c, step, from) == RowProbs(w, k, step, from)
  {
    assert Tilted(num, Message(w, k, step), 1.0) == Message(w, k, step);
  }

  /** Product of the proposed probabilities of the candidates `p[step..]`. */
  function AlongRows(rows: seq<seq<real>>, k: nat, p: seq<int>, step: nat): real
    requires |rows| == |p| && step <= |p| && Distributions(rows, k) && IsPath(p, k, |p|)
    decreases |p| - step
  {
    if step == |p| then 1.0 else Times(rows[step][p[step]], AlongRows(rows, k, p, step + 1))
  }

  lemma {:induction false} AlongIsChain(rows: seq<seq<real>>, k: nat, chain: ProposalRows, path: seq<nat>,
                                        p: seq<int>, step: nat)
    requires |rows| == |path| == |p| && Distributions(rows, k) && IsPath(p, k, |p|) && step < |p|
    requires forall s :: 0 <= s < |p| ==> rows[s] == chain(s, path[s])
    requires forall s :: 0 < s < |p| ==> path[s] == p[s - 1]
    ensures AlongRows(rows, k, p, step) == ProbAlong(chain, step, path[step], p[step..])
    decreases |p| - step
  {
    assert p[step..][0] == p[step] && p[step..][1..] == p[step + 1..];
    assert rows[step] == chain(step, path[step]);
    if step + 1 < |p| {
      AlongIsChain(rows, k, chain, path, p, step + 1);
    }
  }

  lemma ChainRowsFull(num: Numerics, w: Lattice, k: nat, c: Config, path: seq<nat>)
    requires Sound(num) && Chain(w, k) && Usable(c) && |path| == |w| && c.futureBeta == 1.0 && c.topP == 1.0
    requires forall s :: 0 <= s < |path| ==> path[s] < k
    ensures forall s :: 0 <= s < |w| ==> ChainRows(num, w, k, c, path, |w|)[s] == FullRows(w, k)(s, path[s])
  {
    forall s | 0 <= s < |w| ensures ChainRows(num, w, k, c, path, |w|)[s] == FullRows(w, k)(s, path[s]) {
      FullRowAt(num, w, k, c, s, path[s]);
    }
  }

  lemma FullRowAt(num: Numerics, w: Lattice, k: nat, c: Config, step: nat, from: nat)
    requires Sound(num) && Chain(w, k) && Usable(c) && step < |w| && from < k && c.futureBeta == 1.0 && c.topP == 1.0
    ensures ChainRow(num, w, k, c, step, from) == FullRows(w, k)(step, from)
  {
    FullMessageRow(num, w, k, c, step, from);
  }

  lemma FullProposals(num: Numerics, r: Record, c: Config, n: nat, k: nat, m: nat)
    requires Sound(num) && Shaped(r, n, k, m) && Usable(c)
    requires !c.useCached && c.futureBeta == 1.0 && c.topP == 1.0 && c.greedyMix == 0.0
    requires RecordPath(r, n, k, m).Some?
    ensures Proposals(num, r, c, n, k, m).Some?
    ensures var w, path := LatticeWeights(num, r, c, n, k, m), RecordPath(r, n, k, m).value;
            forall s :: 0 <= s < n ==> Proposals(num, r, c, n, k, m).value[s] == FullRows(w, k)(s, path[s])
  {
    ChainRowsFull(num, LatticeWeights(num, r, c, n, k, m), k, c, RecordPath(r, n, k, m).value);
  }

  /**
   * On a record, the full-message proposals of the drafted candidates multiply to the share of that path in
   * the total weight of all paths through the transformed lattice.
   */
  lemma RecordTelescopes(num: Numerics, r: Record, c: Config, n: nat, k: nat, m: nat, p: seq<int>)
    requires Sound(num) && Shaped(r, n, k, m) && Usable(c)
    requires !c.useCached && c.futureBeta == 1.0 && c.topP == 1.0 && c.greedyMix == 0.0
    requires RecordPath(r, n, k, m).Some? && IsPath(p, k, n)
    requires forall s :: 0 < s < n ==> RecordPath(r, n, k, m).value[s] == p[s - 1]
    ensures Proposals(num, r, c, n, k, m).Some?
    ensures var w := LatticeWeights(num, r, c, n, k, m);
            && Total(w, k, 0, 0) > 0.0
            && AlongRows(Proposals(num, r, c, n, k, m).value, k, p, 0)
               == Ratio(PathWeight(w, 0, 0, p), Total(w, k, 0, 0))
  {
    var w, path := LatticeWeights(num, r, c, n, k, m), RecordPath(r, n, k, m).value;
    FullProposals(num, r, c, n, k, m);
    AlongIsChain(Proposals(num, r, c, n, k, m).value, k, FullRows(w, k), path, p, 0);
    assert p[0..] == p;
    ProposalsTelescope(w, k, p);
  }

  /** With no message and unit scales a row is rebuilt from the recorded lattice scores alone. */
  lemma NoMessageRow(num: Numerics, r: Record, c: Config, n: nat, k: nat, m: nat, step: nat, from: nat)
    requires Sound(num) && Shaped(r, n, k, m) && Usable(c) && step < n && from < k
    requires c.futureBeta == 0.0 && c.temperatureScale == 1.0 && c.unaryScale == 1.0 && c.edgeScale == 1.0
    requires r.realized[step] == Divided(r.lattice[step][from], r.temperature)
    ensures ChainRow(num, LatticeWeights(num, r, c, n, k, m), k, c, step, from) == CachedRow(num, r.realized[step], c)
  {
    var w := LatticeWeights(num, r, c, n, k, m);
    UnitScores(r, c, r.unary[step], r.lattice[step][from]);
    assert w[step][from] == Exps(num, r.realized[step]);
    NoMessage(num, w[step][from], Message(w, k, step));
  }

  lemma UnitScores(r: Record, c: Config, unary: seq<real>, lattice: seq<real>)
    requires |unary| == |lattice| && r.temperature > 0.0
    requires c.temperatureScale == 1.0 && c.unaryScale == 1.0 && c.edgeScale == 1.0
    ensures ScoreRow(r, c, unary, lattice) == Divided(lattice, r.temperature)
  {
    forall j | 0 <= j < |lattice| ensures Score(r, c, unary[j], lattice[j]) == Ratio(lattice[j], r.temperature) {
      UnitScore(r, c, unary[j], lattice[j]);
    }
  }

  lemma UnitScore(r: Record, c: Config, unary: real, lattice: real)
    requires r.temperature > 0.0 && c.temperatureScale == 1.0 && c.unaryScale == 1.0 && c.edgeScale == 1.0
    ensures Score(r, c, unary, lattice) == Ratio(lattice, r.temperature)
  {
    assert Times(1.0, unary) + Times(1.0, lattice - unary) == lattice;
    assert Times(r.temperature, 1.0) == r.temperature;
  }

  lemma NoMessage(num: Numerics, row: seq<real>, f: seq<real>)
    requires Sound(num) && AllPositive(f) && |row| == |f|
    ensures Products(row, Tilted(num, f, 0.0)) == row
  {
    var tilted := Tilted(num, f, 0.0);
    forall j | 0 <= j < |f| ensures tilted[j] == 1.0 && Times(row[j], tilted[j]) == row[j] {
      PowerZero(num, f[j]);
    }
  }

  lemma PowerZero(num: Numerics, x: real)
    requires Sound(num)
    ensures num.power(x, 0.0) == 1.0
  {
  }

  // ----- choosing a configuration per position -----

  /** `b` is the first configuration with the largest mean overlap at position `p`. */
  predicate BestAt(results: seq<seq<real>>, p: nat, b: nat, upTo: nat)
    requires forall c :: 0 <= c < |results| ==> p < |results[c]|
    requires b < |results| && upTo <= |results|
  {
    forall c :: 0 <= c < upTo ==> results[c][p] <= results[b][p] && (c < b ==> results[c][p] < results[b][p])
  }

  method Best(results: seq<seq<real>>, p: nat) returns (b: nat)
    requires results != [] && forall c :: 0 <= c < |results| ==> p < |results[c]|
    ensures b < |results| && BestAt(results, p, b, |results|)
  {
    b := 0;
    for c := 1 to |results|
      invariant b < c && BestAt(results, p, b, c)
    {
      if results[b][p] < results[c][p] {
        b := c;
      }
    }
  }

  /** For each position the best configuration there and its overlap. */
  method PositionPolicy(results: seq<seq<real>>, n: nat) returns (best: seq<nat>, overlaps: seq<real>)
    requires results != [] && Rows(results, |results|, n)
    ensures |best| == |overlaps| == n
    ensures forall p :: 0 <= p < n ==>
              best[p] < |results| && overlaps[p] == results[best[p]][p] && BestAt(results, p, best[p], |results|)
  {
    best, overlaps := [], [];
    for p := 0 to n
      invariant |best| == |overlaps| == p
      invariant forall q :: 0 <= q < p ==>
        best[q] < |results| && overlaps[q] == results[best[q]][q] && BestAt(results, q, best[q], |results|)
    {
      var b := Best(results, p);
      best, overlaps := best + [b], overlaps + [results[b][p]];
    }
  }

  /** The position-wise policy has at least the proxy of every single configuration. */
  lemma PolicyDominates(results: seq<seq<real>>, n: nat, best: seq<nat>, overlaps: seq<real>, c: nat)
    requires results != [] && Rows(results, |results|, n) && |best| == |overlaps| == n && c < |results|
    requires forall p :: 0 <= p < n ==>
               best[p] < |results| && overlaps[p] == results[best[p]][p] && BestAt(results, p, best[p], |results|)
    requires AllNonNegative(results[c])
    ensures Proxy(results[c]) <= Proxy(overlaps)
  {
    forall p | 0 <= p < n ensures 0.0 <= results[c][p] <= overlaps[p] {
      assert BestAt(results, p, best[p], |results|);
    }
    ProxyMonotone(results[c], overlaps);
  }

  /** `results` are the mean overlaps of the configurations, in order. */
  ghost predicate Evaluated(num: Numerics, records: seq<Record>, configs: seq<Config>, n: nat, k: nat, m: nat,
                            results: seq<seq<real>>)
    requires Sound(num) && records != [] && AllShaped(records, n, k, m)
  {
    && |results| == |configs|
    && forall c :: 0 <= c < |configs| ==>
         Usable(configs[c]) && Evaluate(num, records, configs[c], n, k, m) == Some(results[c])
  }

  /** Of evaluated configurations none beats the position-wise policy, so its delta is never negative. */
  lemma EvaluatedPolicyDominates(num: Numerics, records: seq<Record>, configs: seq<Config>, n: nat, k: nat, m: nat,
                                 results: seq<seq<real>>, best: seq<nat>, overlaps: seq<real>, c: nat)
    requires Sound(num) && records != [] && AllShaped(records, n, k, m) && c < |configs|
    requires Evaluated(num, records, configs, n, k, m, results) && |best| == |overlaps| == n
    requires Rows(results, |results|, n) && forall p :: 0 <= p < n ==>
               best[p] < |results| && overlaps[p] == results[best[p]][p] && BestAt(results, p, best[p], |results|)
    ensures Proxy(results[c]) <= Proxy(overlaps)
  {
    ProxyBelowSupport(num, records, configs[c], n, k, m);
    PolicyDominates(results, n, best, overlaps, c);
  }
}
